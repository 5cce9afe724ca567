/**
 The pure parts of `update_calendar`: which roster cells become shifts, the
 date window the calendar is read back for, which calendar events are
 deleted and which shifts are uploaded, and what a run does to the calendar
 when its deletes and uploads succeed or fail.

 The calendar is a store of events keyed by UID, as a CalDAV collection
 holds one resource per UID. Uploading an event replaces any event with
 the same UID. Events are compared by value, as icalendar components are.
 */
module Sync {
  import opened Text
  import opened Seqs
  import opened Roster
  import opened Shifts
  import TermRoster

  /** The label of a day off. */
  const OffLabel := "OFF"

  /** Every string that occurs inside `"OFF"`. */
  const OffInfixes: set<string> := {"", "O", "F", "OF", "FF", "OFF"}

  /**
   The label test as written: a non-blank string whose stripped, upper-cased
   form is not `in ("OFF")`. The parentheses make a string, not a tuple, so
   the test is a substring test.
   */
  predicate KeepLabel(v: Value) {
    v.Text? && Strip(v.s) != [] && !IsInfix(Upper(Strip(v.s)), OffLabel)
  }

  /** The label test as evidently intended: only the label `OFF` itself is a day off. */
  predicate KeepLabelIntended(v: Value) {
    v.Text? && Strip(v.s) != [] && Upper(Strip(v.s)) != OffLabel
  }

  /** `a in "OFF"` holds for exactly the six infixes of `"OFF"`. */
  lemma InfixOfOff(a: string)
    ensures IsInfix(a, OffLabel) <==> a in OffInfixes
  {
    if IsInfix(a, OffLabel) {
      var i :| 0 <= i <= |OffLabel| - |a| && OccursAt(a, OffLabel, i);
      assert a == OffLabel[i..i + |a|];
      if |a| == 0 {
        assert a == "";
      } else if |a| == 1 {
        assert a == [OffLabel[i]];
      } else if |a| == 2 {
        assert a == [OffLabel[i], OffLabel[i + 1]];
      } else {
        assert a == OffLabel;
      }
    }
    if a in OffInfixes {
      var i := if a == "F" || a == "FF" then 1 else 0;
      assert OccursAt(a, OffLabel, i);
    }
  }

  /** Upper-casing keeps a string's length, so it keeps it empty or not. */
  lemma UpperEmpty(s: string)
    ensures Upper(s) == [] <==> s == []
  {
  }

  /** The as-written test drops exactly the labels that normalise to an infix of `OFF`. */
  lemma KeepLabelExactly(v: Value)
    ensures KeepLabel(v) <==> v.Text? && Upper(Strip(v.s)) !in OffInfixes
  {
    if v.Text? {
      InfixOfOff(Upper(Strip(v.s)));
      UpperEmpty(Strip(v.s));
    }
  }

  /** The intended test drops exactly blank labels and `OFF`. */
  lemma KeepLabelIntendedExactly(v: Value)
    ensures KeepLabelIntended(v) <==> v.Text? && Upper(Strip(v.s)) !in {"", OffLabel}
  {
    if v.Text? {
      UpperEmpty(Strip(v.s));
    }
  }

  /** The two tests differ on the labels `O`, `F`, `OF` and `FF`, and nowhere else. */
  lemma KeepLabelDiffers(v: Value)
    ensures KeepLabel(v) != KeepLabelIntended(v) <==>
      v.Text? && Upper(Strip(v.s)) in {"O", "F", "OF", "FF"}
  {
    KeepLabelExactly(v);
    KeepLabelIntendedExactly(v);
    if v.Text? {
      OffSetsDiffer(Upper(Strip(v.s)));
    }
  }

  /** The infixes of `OFF` other than the empty string and `OFF` itself. */
  lemma OffSetsDiffer(u: string)
    ensures (u in OffInfixes) != (u in {"", OffLabel}) <==> u in {"O", "F", "OF", "FF"}
  {
  }

  /** The Float shift `F` has a start time, yet the as-written test drops it. */
  lemma FloatShiftDropped()
    ensures NormalLabel("F") in StartTimes
    ensures !KeepLabel(Text("F"))
    ensures KeepLabelIntended(Text("F"))
  {
    FloatLabelNormal();
    KeepLabelExactly(Text("F"));
    KeepLabelIntendedExactly(Text("F"));
  }

  /** `F` is its own stripped, upper-cased form. */
  lemma FloatLabelNormal()
    ensures Strip("F") == "F" && Upper("F") == "F" && NormalLabel("F") == "F"
  {
    assert !IsSpace('F');
    assert LStrip("F") == "F";
    assert RStrip("F") == "F";
  }

  /** A date-row cell holding a date-time, and the user's cell in the same column. */
  datatype Slot = Slot(at: DateTime, cell: Value)

  /**
   The date-times of the date row, each with the user's cell below it, left
   to right (the boolean mask applied to both rows, then `zip`).
   */
  function Slots(dateLine: seq<Value>, userLine: seq<Value>): (r: seq<Slot>)
    requires |dateLine| == |userLine|
    ensures |r| == DateCount(dateLine)
    ensures forall j :: 0 <= j < |dateLine| && dateLine[j].Stamp? ==> Slot(dateLine[j].at, userLine[j]) in r
  {
    if dateLine == [] then []
    else
      var n := |dateLine| - 1;
      var r := Slots(dateLine[..n], userLine[..n]);
      if dateLine[n].Stamp? then r + [Slot(dateLine[n].at, userLine[n])] else r
  }

  /** Some column holds the slot's date-time above its cell. */
  predicate SlotFrom(dateLine: seq<Value>, userLine: seq<Value>, sl: Slot)
    requires |dateLine| == |userLine|
  {
    exists j :: 0 <= j < |dateLine| && dateLine[j] == Stamp(sl.at) && userLine[j] == sl.cell
  }

  /** Each slot comes from a column holding its date-time above its cell. */
  lemma {:induction false} SlotsFromColumns(dateLine: seq<Value>, userLine: seq<Value>)
    requires |dateLine| == |userLine|
    ensures forall k :: 0 <= k < |Slots(dateLine, userLine)| ==> SlotFrom(dateLine, userLine, Slots(dateLine, userLine)[k])
  {
    if dateLine == [] {
      assert Slots(dateLine, userLine) == [];
    } else {
      var n := |dateLine| - 1;
      var r := Slots(dateLine, userLine);
      var r0 := Slots(dateLine[..n], userLine[..n]);
      SlotsFromColumns(dateLine[..n], userLine[..n]);
      forall k | 0 <= k < |r|
        ensures SlotFrom(dateLine, userLine, r[k])
      {
        if k < |r0| {
          assert SlotFrom(dateLine[..n], userLine[..n], r0[k]);
          var j :| 0 <= j < n && dateLine[..n][j] == Stamp(r0[k].at) && userLine[..n][j] == r0[k].cell;
          assert dateLine[j] == Stamp(r[k].at) && userLine[j] == r[k].cell;
        } else {
          assert dateLine[n] == Stamp(r[k].at) && userLine[n] == r[k].cell;
        }
      }
    }
  }

  /** `Shift(dt.date(), shift_label)` for a slot whose label is a string. */
  function ShiftOf(sl: Slot, env: Env): Shift
    requires sl.cell.Text?
  {
    MakeShift(OnDate(sl.at.date), Strip(sl.cell.s), env)
  }

  /** A slot is kept when its cell is a string and the label test passes. */
  predicate Passes(sl: Slot, keep: Value -> bool) {
    sl.cell.Text? && keep(sl.cell)
  }

  /** The slot test as a predicate on slots, for filtering. */
  function Keeps(keep: Value -> bool): Slot -> bool {
    sl => Passes(sl, keep)
  }

  /** The slots whose label passes the test, in order. */
  function Kept(slots: seq<Slot>, keep: Value -> bool): (r: seq<Slot>)
    ensures |r| <= |slots|
    ensures forall k :: 0 <= k < |r| ==> r[k] in slots && Passes(r[k], keep)
    ensures forall i :: 0 <= i < |slots| && Passes(slots[i], keep) ==> slots[i] in r
  {
    Filter(slots, Keeps(keep))
  }

  /**
   The shifts of the user's row: `Shift(dt.date(), shift_label)` for each
   slot whose label passes the test, in order.
   */
  function Derive(slots: seq<Slot>, keep: Value -> bool, env: Env): (r: seq<Shift>)
    ensures |r| == |Kept(slots, keep)| <= |slots|
  {
    var kept := Kept(slots, keep);
    seq(|kept|, k requires 0 <= k < |kept| => ShiftOf(kept[k], env))
  }

  /** Every derived shift comes from a slot whose label passes the test, and every such slot gives one. */
  lemma DeriveExactly(slots: seq<Slot>, keep: Value -> bool, env: Env)
    ensures forall s :: s in Derive(slots, keep, env) ==>
      exists i :: 0 <= i < |slots| && Passes(slots[i], keep) && s == ShiftOf(slots[i], env)
    ensures forall i :: 0 <= i < |slots| && Passes(slots[i], keep) ==> ShiftOf(slots[i], env) in Derive(slots, keep, env)
  {
    forall s | s in Derive(slots, keep, env)
      ensures exists i :: 0 <= i < |slots| && Passes(slots[i], keep) && s == ShiftOf(slots[i], env)
    {
      DerivedFromSlot(slots, keep, env, s);
    }
    forall i | 0 <= i < |slots| && Passes(slots[i], keep)
      ensures ShiftOf(slots[i], env) in Derive(slots, keep, env)
    {
      SlotDerived(slots, keep, env, i);
    }
  }

  /** A derived shift is the shift of a slot whose label passes. */
  lemma DerivedFromSlot(slots: seq<Slot>, keep: Value -> bool, env: Env, s: Shift)
    requires s in Derive(slots, keep, env)
    ensures exists i :: 0 <= i < |slots| && Passes(slots[i], keep) && s == ShiftOf(slots[i], env)
  {
    var kept := Kept(slots, keep);
    var r := Derive(slots, keep, env);
    var k :| 0 <= k < |r| && r[k] == s;
    assert kept[k] in slots;
    var i :| 0 <= i < |slots| && slots[i] == kept[k];
    assert Passes(slots[i], keep) && s == ShiftOf(slots[i], env);
  }

  /** A slot whose label passes gives a derived shift. */
  lemma SlotDerived(slots: seq<Slot>, keep: Value -> bool, env: Env, i: nat)
    requires i < |slots| && Passes(slots[i], keep)
    ensures ShiftOf(slots[i], env) in Derive(slots, keep, env)
  {
    var kept := Kept(slots, keep);
    var r := Derive(slots, keep, env);
    var k :| 0 <= k < |kept| && kept[k] == slots[i];
    assert r[k] == ShiftOf(slots[i], env);
  }

  /**
   A Float shift in the roster: the as-written test derives nothing from it,
   the intended one derives the 12:30 ten-hour shift.
   */
  lemma FloatShiftLost(dt: DateTime, env: Env)
    ensures Derive([Slot(dt, Text("F"))], KeepLabel, env) == []
    ensures var r := Derive([Slot(dt, Text("F"))], KeepLabelIntended, env);
      |r| == 1 && r[0].start == Timed(dt.date, Time(12, 30, 0)) && r[0].durationHours == Some(10)
  {
    var sl := Slot(dt, Text("F"));
    FloatShiftDropped();
    KeptSingle(sl, KeepLabel);
    KeptSingle(sl, KeepLabelIntended);
    FloatLabelNormal();
    FloatEntry();
    TimedSlotShift(sl, env);
  }

  /** A single slot is kept exactly when its label passes. */
  lemma KeptSingle(sl: Slot, keep: Value -> bool)
    ensures Kept([sl], keep) == if Passes(sl, keep) then [sl] else []
  {
    assert [sl][..0] == [];
  }

  /** The start-time table gives `F` 12:30. */
  lemma FloatEntry()
    ensures "F" in StartTimes && StartTimes["F"] == Time(12, 30, 0)
  {
  }

  /** A slot whose label has a start time gives a shift starting then, for ten hours. */
  lemma TimedSlotShift(sl: Slot, env: Env)
    requires sl.cell.Text? && NormalLabel(Strip(sl.cell.s)) in StartTimes
    ensures ShiftOf(sl, env).start == Timed(sl.at.date, StartTimes[NormalLabel(Strip(sl.cell.s))])
    ensures ShiftOf(sl, env).durationHours == Some(10)
  {
  }

  /** Where no label is `O`, `F`, `OF` or `FF`, both tests keep the same slots. */
  lemma KeptAgrees(slots: seq<Slot>)
    requires forall i :: 0 <= i < |slots| && slots[i].cell.Text? ==>
      Upper(Strip(slots[i].cell.s)) !in {"O", "F", "OF", "FF"}
    ensures Kept(slots, KeepLabel) == Kept(slots, KeepLabelIntended)
  {
    forall i | 0 <= i < |slots|
      ensures Keeps(KeepLabel)(slots[i]) == Keeps(KeepLabelIntended)(slots[i])
    {
      KeepLabelDiffers(slots[i].cell);
    }
    FilterAgrees(slots, Keeps(KeepLabel), Keeps(KeepLabelIntended));
  }

  /** Where no label is `O`, `F`, `OF` or `FF`, both tests derive the same shifts. */
  lemma DeriveAgrees(slots: seq<Slot>, env: Env)
    requires forall i :: 0 <= i < |slots| && slots[i].cell.Text? ==>
      Upper(Strip(slots[i].cell.s)) !in {"O", "F", "OF", "FF"}
    ensures Derive(slots, KeepLabel, env) == Derive(slots, KeepLabelIntended, env)
  {
    KeptAgrees(slots);
  }

  /** Columns are read left to right: the slots of two stretches of columns, one after the other. */
  lemma {:induction false} SlotsAppend(d1: seq<Value>, u1: seq<Value>, d2: seq<Value>, u2: seq<Value>)
    requires |d1| == |u1| && |d2| == |u2|
    ensures Slots(d1 + d2, u1 + u2) == Slots(d1, u1) + Slots(d2, u2)
    decreases |d2|
  {
    if d2 == [] {
      assert d1 + d2 == d1 && u1 + u2 == u1;
    } else {
      var n := |d2| - 1;
      var d, u := d1 + d2, u1 + u2;
      assert d[..|d| - 1] == d1 + d2[..n] && d[|d| - 1] == d2[n];
      assert u[..|u| - 1] == u1 + u2[..n] && u[|u| - 1] == u2[n];
      var tail := if d2[n].Stamp? then [Slot(d2[n].at, u2[n])] else [];
      assert Slots(d, u) == Slots(d1 + d2[..n], u1 + u2[..n]) + tail;
      assert Slots(d2, u2) == Slots(d2[..n], u2[..n]) + tail;
      SlotsAppend(d1, u1, d2[..n], u2[..n]);
    }
  }

  /** One column gives a slot exactly when its date-row cell is a date-time. */
  lemma SlotsSingle(x: Value, y: Value)
    ensures Slots([x], [y]) == if x.Stamp? then [Slot(x.at, y)] else []
  {
    assert [x][..0] == [] && [y][..0] == [];
  }

  /** Shifts are derived in slot order: deriving from two runs of slots, one after the other. */
  lemma DeriveAppend(a: seq<Slot>, b: seq<Slot>, keep: Value -> bool, env: Env)
    ensures Derive(a + b, keep, env) == Derive(a, keep, env) + Derive(b, keep, env)
  {
    var ka, kb := Kept(a, keep), Kept(b, keep);
    FilterAppend(a, b, Keeps(keep));
    assert Kept(a + b, keep) == ka + kb;
    var r, ra, rb := Derive(a + b, keep, env), Derive(a, keep, env), Derive(b, keep, env);
    forall k | 0 <= k < |r|
      ensures r[k] == (ra + rb)[k]
    {
      if k < |ra| {
        assert r[k] == ShiftOf(ka[k], env);
      } else {
        assert r[k] == ShiftOf(kb[k - |ra|], env);
      }
    }
  }

  /** One slot gives its shift exactly when its label passes. */
  lemma DeriveSingle(sl: Slot, keep: Value -> bool, env: Env)
    ensures Derive([sl], keep, env) == if Passes(sl, keep) then [ShiftOf(sl, env)] else []
  {
    KeptSingle(sl, keep);
    var r := Derive([sl], keep, env);
    if Passes(sl, keep) {
      var x := ShiftOf(sl, env);
      assert |r| == 1 && r[0] == x;
      Singleton(r, x);
    } else {
      assert |r| == 0;
    }
  }

  /** `min(dates)`. */
  function Earliest(slots: seq<Slot>): (r: DateTime)
    requires |slots| > 0
    ensures exists i :: 0 <= i < |slots| && slots[i].at == r
    ensures forall i :: 0 <= i < |slots| ==> Le(r, slots[i].at)
  {
    if |slots| == 1 then slots[0].at
    else
      var m := Earliest(slots[..|slots| - 1]);
      var x := slots[|slots| - 1].at;
      LeTotalOrder();
      if Le(x, m) then x else m
  }

  /** `max(dates)`. */
  function Latest(slots: seq<Slot>): (r: DateTime)
    requires |slots| > 0
    ensures exists i :: 0 <= i < |slots| && slots[i].at == r
    ensures forall i :: 0 <= i < |slots| ==> Le(slots[i].at, r)
  {
    if |slots| == 1 then slots[0].at
    else
      var m := Latest(slots[..|slots| - 1]);
      var x := slots[|slots| - 1].at;
      LeTotalOrder();
      if Le(m, x) then x else m
  }

  /** Every derived shift falls on a date inside the window the calendar is read for. */
  lemma ShiftsInWindow(slots: seq<Slot>, keep: Value -> bool, env: Env)
    requires |slots| > 0
    ensures forall s :: s in Derive(slots, keep, env) ==>
      DateLe(Earliest(slots).date, s.date) && DateLe(s.date, Latest(slots).date)
  {
    var lo := Earliest(slots);
    var hi := Latest(slots);
    DeriveExactly(slots, keep, env);
    forall s | s in Derive(slots, keep, env)
      ensures DateLe(lo.date, s.date) && DateLe(s.date, hi.date)
    {
      var i :| 0 <= i < |slots| && Passes(slots[i], keep) && s == ShiftOf(slots[i], env);
      assert s.date == slots[i].at.date;
      assert Le(lo, slots[i].at) && Le(slots[i].at, hi);
    }
  }

  /** Calendar events no longer in the roster: `icalendar_component not in shifts`. */
  function ToDelete(remote: seq<Shift>, local: seq<Shift>): seq<Shift> {
    Filter(remote, r => r !in local)
  }

  /** Roster shifts not yet in the calendar: the `for ... else` search. */
  function ToCreate(local: seq<Shift>, remote: seq<Shift>): seq<Shift> {
    Filter(local, l => l !in remote)
  }

  /**
   A listed event is deleted exactly when the roster lacks it, and a roster
   shift is uploaded exactly when the listing lacks it.
   */
  lemma ReconcileExactly(remote: seq<Shift>, local: seq<Shift>)
    ensures forall r :: r in remote ==> (r in ToDelete(remote, local) <==> r !in local)
    ensures forall l :: l in local ==> (l in ToCreate(local, remote) <==> l !in remote)
  {
    forall r | r in remote ensures r in ToDelete(remote, local) <==> r !in local {
      var d := ToDelete(remote, local);
      if r in d {
        var k :| 0 <= k < |d| && d[k] == r;
      }
      if r !in local {
        var i :| 0 <= i < |remote| && remote[i] == r;
      }
    }
    forall l | l in local ensures l in ToCreate(local, remote) <==> l !in remote {
      var c := ToCreate(local, remote);
      if l in c {
        var k :| 0 <= k < |c| && c[k] == l;
      }
      if l !in remote {
        var i :| 0 <= i < |local| && local[i] == l;
      }
    }
  }

  /** Listing `a, b` against roster `b, c`: `a` is deleted, `c` uploaded, `b` left alone. */
  lemma ReconcileExample(a: Shift, b: Shift, c: Shift)
    requires a != b && b != c && a != c
    ensures ToDelete([a, b], [b, c]) == [a]
    ensures ToCreate([b, c], [a, b]) == [c]
  {
    var remote, local := [a, b], [b, c];
    assert remote[..1] == [a] && [a][..0] == [];
    assert local[..1] == [b] && [b][..0] == [];
  }

  /** A second run against a calendar that lists exactly the roster's shifts changes nothing. */
  lemma SecondRunIdle(remote: seq<Shift>, local: seq<Shift>)
    requires forall r :: r in remote ==> r in local
    requires forall l :: l in local ==> l in remote
    ensures ToDelete(remote, local) == []
    ensures ToCreate(local, remote) == []
  {
    FilterNone(remote, r => r !in local);
    FilterNone(local, l => l !in remote);
  }

  /**
   A user row with dates above it but no kept label prepares no shifts; the
   run then deletes every event the calendar lists in the window.
   */
  lemma EmptyRosterDeletesAll(remote: seq<Shift>)
    ensures ToDelete(remote, []) == remote
    ensures ToCreate([], remote) == []
  {
    var local: seq<Shift> := [];
    FilterAll(remote, r => r !in local);
  }

  /** The calendar: its events by UID. */
  type Store = map<string, Shift>

  /** Every listed event is the store's event under its UID. */
  predicate ListingOf(store: Store, remote: seq<Shift>) {
    forall i :: 0 <= i < |remote| ==> remote[i].uid in store && store[remote[i].uid] == remote[i]
  }

  /** Shifts with the same UID are the same shift. */
  predicate UidsDetermine(xs: seq<Shift>) {
    forall i, j :: 0 <= i < |xs| && 0 <= j < |xs| && xs[i].uid == xs[j].uid ==> xs[i] == xs[j]
  }

  /** A change the run makes to the calendar: `delete()` or `save_event`. */
  datatype Action = Delete(uid: string) | Save(event: Shift)

  function Apply(store: Store, a: Action): Store {
    match a
    case Delete(u) => store - {u}
    case Save(e) => store[e.uid := e]
  }

  function ApplyAll(store: Store, actions: seq<Action>): Store {
    if actions == [] then store
    else Apply(ApplyAll(store, actions[..|actions| - 1]), actions[|actions| - 1])
  }

  lemma {:induction false} ApplyAllAppend(store: Store, a: seq<Action>, b: seq<Action>)
    ensures ApplyAll(store, a + b) == ApplyAll(ApplyAll(store, a), b)
    decreases |b|
  {
    if b == [] {
      assert a + b == a;
    } else {
      assert (a + b)[..|a + b| - 1] == a + b[..|b| - 1];
      ApplyAllAppend(store, a, b[..|b| - 1]);
    }
  }

  /** One delete per event, in order. */
  function Deletes(xs: seq<Shift>): (r: seq<Action>)
    ensures |r| == |xs|
    ensures forall i :: 0 <= i < |xs| ==> r[i] == Delete(xs[i].uid)
  {
    seq(|xs|, i requires 0 <= i < |xs| => Delete(xs[i].uid))
  }

  /** The uploads that succeeded, in order. */
  function Saves(xs: seq<Shift>, ok: seq<bool>): (r: seq<Action>)
    requires |ok| == |xs|
    ensures |r| == Count(ok, b => b)
  {
    if xs == [] then []
    else
      var n := |xs| - 1;
      Saves(xs[..n], ok[..n]) + (if ok[n] then [Save(xs[n])] else [])
  }

  /** Extending the list by its next shift adds that shift's upload, if it succeeded. */
  lemma SavesStep(xs: seq<Shift>, ok: seq<bool>, k: nat)
    requires |ok| == |xs| && k < |xs|
    ensures Saves(xs[..k + 1], ok[..k + 1]) == Saves(xs[..k], ok[..k]) + (if ok[k] then [Save(xs[k])] else [])
  {
    assert xs[..k + 1][..k] == xs[..k] && ok[..k + 1][..k] == ok[..k];
  }

  /** Deleting a list of events removes exactly their UIDs and keeps every other event. */
  lemma {:induction false} DeletesEffect(store: Store, xs: seq<Shift>)
    ensures var after := ApplyAll(store, Deletes(xs));
      forall u :: (u in after <==> u in store && forall i :: 0 <= i < |xs| ==> xs[i].uid != u)
        && (u in after ==> after[u] == store[u])
  {
    if xs != [] {
      var n := |xs| - 1;
      assert Deletes(xs)[..n] == Deletes(xs[..n]);
      DeletesEffect(store, xs[..n]);
    }
  }

  /** Some shift of `xs` has UID `u`. */
  predicate HasUid(xs: seq<Shift>, u: string) {
    exists i :: 0 <= i < |xs| && xs[i].uid == u
  }

  /** The last successful upload is applied last. */
  lemma SavesLast(store: Store, xs: seq<Shift>, ok: seq<bool>)
    requires |ok| == |xs| > 0 && ok[|ok| - 1]
    ensures var n := |xs| - 1;
      ApplyAll(store, Saves(xs, ok)) == ApplyAll(store, Saves(xs[..n], ok[..n]))[xs[n].uid := xs[n]]
  {
    var n := |xs| - 1;
    var a := Saves(xs[..n], ok[..n]);
    assert Saves(xs, ok) == a + [Save(xs[n])];
    assert (a + [Save(xs[n])])[..|a|] == a;
  }

  /** A UID other than the last shift's is in the list exactly when it is in the list's front. */
  lemma HasUidFront(xs: seq<Shift>, u: string)
    requires |xs| > 0 && u != xs[|xs| - 1].uid
    ensures HasUid(xs, u) <==> HasUid(xs[..|xs| - 1], u)
  {
    var n := |xs| - 1;
    if HasUid(xs, u) {
      var i :| 0 <= i < |xs| && xs[i].uid == u;
      assert xs[..n][i].uid == u;
    }
    if HasUid(xs[..n], u) {
      var i :| 0 <= i < n && xs[..n][i].uid == u;
      assert xs[i].uid == u;
    }
  }

  /**
   At UID `u`, `after` is what uploading every shift of `xs` over `store`
   leaves: the UID is there if it was there before or some shift of the list
   has it; then it holds one of those shifts; otherwise it holds what it
   held before.
   */
  predicate UploadedAt(store: Store, after: Store, xs: seq<Shift>, u: string) {
    && (u in after <==> u in store || HasUid(xs, u))
    && (HasUid(xs, u) ==> exists i :: 0 <= i < |xs| && xs[i].uid == u && after[u] == xs[i])
    && (u in after && !HasUid(xs, u) ==> after[u] == store[u])
  }

  /** Uploading one more shift keeps `UploadedAt` for the longer list. */
  lemma UploadedAtStep(store: Store, before: Store, xs: seq<Shift>, u: string)
    requires |xs| > 0
    requires UploadedAt(store, before, xs[..|xs| - 1], u)
    ensures UploadedAt(store, before[xs[|xs| - 1].uid := xs[|xs| - 1]], xs, u)
  {
    var n := |xs| - 1;
    var after := before[xs[n].uid := xs[n]];
    if u == xs[n].uid {
      assert xs[n].uid == u && after[u] == xs[n];
    } else {
      HasUidFront(xs, u);
      if HasUid(xs, u) {
        var i :| 0 <= i < n && xs[..n][i].uid == u && before[u] == xs[..n][i];
        assert xs[i].uid == u && after[u] == xs[i];
      }
    }
  }

  /** The shifts whose upload succeeded, in order. */
  function Succeeded(xs: seq<Shift>, ok: seq<bool>): (r: seq<Shift>)
    requires |ok| == |xs|
    ensures |r| == Count(ok, b => b)
  {
    if xs == [] then []
    else
      var n := |xs| - 1;
      Succeeded(xs[..n], ok[..n]) + (if ok[n] then [xs[n]] else [])
  }

  /** A shift is among the successful uploads exactly when some upload of it succeeded. */
  lemma {:induction false} SucceededExactly(xs: seq<Shift>, ok: seq<bool>)
    requires |ok| == |xs|
    ensures forall s :: s in Succeeded(xs, ok) <==> exists i :: 0 <= i < |xs| && ok[i] && xs[i] == s
  {
    if xs != [] {
      var n := |xs| - 1;
      SucceededExactly(xs[..n], ok[..n]);
      forall s | s in Succeeded(xs, ok)
        ensures exists i :: 0 <= i < |xs| && ok[i] && xs[i] == s
      {
        if s in Succeeded(xs[..n], ok[..n]) {
          var i :| 0 <= i < n && ok[..n][i] && xs[..n][i] == s;
          assert ok[i] && xs[i] == s;
        } else {
          assert ok[n] && xs[n] == s;
        }
      }
      forall i | 0 <= i < |xs| && ok[i]
        ensures xs[i] in Succeeded(xs, ok)
      {
        if i < n {
          assert ok[..n][i] && xs[..n][i] == xs[i];
        }
      }
    }
  }

  /** When every upload succeeds, the successful uploads are all of them. */
  lemma {:induction false} SucceededAll(xs: seq<Shift>, ok: seq<bool>)
    requires |ok| == |xs|
    requires forall i :: 0 <= i < |ok| ==> ok[i]
    ensures Succeeded(xs, ok) == xs
  {
    if xs != [] {
      var n := |xs| - 1;
      SucceededAll(xs[..n], ok[..n]);
      assert xs[..n] + [xs[n]] == xs;
    }
  }

  /**
   Running the upload loop, seen at any one UID: the store changes exactly as
   if the successful uploads alone had been made; failed ones leave no trace.
   */
  lemma {:induction false} SavesEffect(store: Store, xs: seq<Shift>, ok: seq<bool>, u: string)
    requires |ok| == |xs|
    ensures UploadedAt(store, ApplyAll(store, Saves(xs, ok)), Succeeded(xs, ok), u)
  {
    if xs != [] {
      var n := |xs| - 1;
      SavesEffect(store, xs[..n], ok[..n], u);
      if ok[n] {
        SavesLast(store, xs, ok);
        var done := Succeeded(xs, ok);
        assert done[..|done| - 1] == Succeeded(xs[..n], ok[..n]);
        UploadedAtStep(store, ApplyAll(store, Saves(xs[..n], ok[..n])), done, u);
      } else {
        assert Saves(xs, ok) == Saves(xs[..n], ok[..n]);
        assert Succeeded(xs, ok) == Succeeded(xs[..n], ok[..n]);
      }
    }
  }

  /**
   After a run whose deletes and uploads all succeed, the calendar holds
   every roster shift under its UID, and every listed event that is still
   there is a roster shift. It needs the listing to match the calendar and
   each UID to name one roster shift.
   */
  lemma Converges(store: Store, remote: seq<Shift>, local: seq<Shift>, ok: seq<bool>)
    requires ListingOf(store, remote)
    requires UidsDetermine(local)
    requires |ok| == |ToCreate(local, remote)|
    requires forall i :: 0 <= i < |ok| ==> ok[i]
    ensures var after := ApplyAll(store, Deletes(ToDelete(remote, local)) + Saves(ToCreate(local, remote), ok));
      && (forall i :: 0 <= i < |local| ==> local[i].uid in after && after[local[i].uid] == local[i])
      && (forall i :: 0 <= i < |remote| && remote[i].uid in after ==> after[remote[i].uid] in local)
  {
    var dels := ToDelete(remote, local);
    var news := ToCreate(local, remote);
    var mid := ApplyAll(store, Deletes(dels));
    var after := ApplyAll(store, Deletes(dels) + Saves(news, ok));
    ApplyAllAppend(store, Deletes(dels), Saves(news, ok));
    DeletesEffect(store, dels);
    SucceededAll(news, ok);
    ReconcileExactly(remote, local);
    forall i | 0 <= i < |local|
      ensures local[i].uid in after && after[local[i].uid] == local[i]
    {
      var l := local[i];
      SavesEffect(mid, news, ok, l.uid);
      if l in news {
        var k0 :| 0 <= k0 < |news| && news[k0] == l;
        assert HasUid(news, l.uid);
      } else {
        assert l in remote;
        forall k | 0 <= k < |dels|
          ensures dels[k].uid != l.uid
        {
          assert dels[k] in remote;
          assert dels[k] !in local;
        }
        assert l.uid in mid;
      }
      if HasUid(news, l.uid) {
        var k :| 0 <= k < |news| && news[k].uid == l.uid && after[l.uid] == news[k];
        assert news[k] in local;
      }
    }
    forall j | 0 <= j < |remote| && remote[j].uid in after
      ensures after[remote[j].uid] in local
    {
      var r := remote[j];
      SavesEffect(mid, news, ok, r.uid);
      if HasUid(news, r.uid) {
        var k :| 0 <= k < |news| && news[k].uid == r.uid && after[r.uid] == news[k];
      } else {
        assert r.uid in mid;
        assert r !in dels;
      }
    }
  }

  /** Index of the first `false`, or the length when every entry is `true`. */
  function FirstFailure(ok: seq<bool>): (k: nat)
    ensures k <= |ok|
    ensures forall i :: 0 <= i < k ==> ok[i]
    ensures k < |ok| ==> !ok[k]
  {
    if ok == [] then 0
    else if !ok[0] then 0
    else 1 + FirstFailure(ok[1..])
  }

  /** What a run did: the changes it made, whether a failed delete ended it, and the upload tallies. */
  datatype Run = Run(actions: seq<Action>, aborted: bool, saved: nat, failed: nat)

  /**
   The delete and upload loops. A failed `delete()` raises out of the run,
   so nothing after it happens; a failed upload is counted and the loop
   goes on. `deleteOk` and `saveOk` say how each server call turns out.
   */
  method Execute(dels: seq<Shift>, news: seq<Shift>, deleteOk: seq<bool>, saveOk: seq<bool>)
    returns (run: Run)
    requires |deleteOk| == |dels| && |saveOk| == |news|
    ensures run.aborted <==> FirstFailure(deleteOk) < |dels|
    ensures run.aborted ==>
      run.actions == Deletes(dels[..FirstFailure(deleteOk)]) && run.saved == 0 && run.failed == 0
    ensures !run.aborted ==> run.actions == Deletes(dels) + Saves(news, saveOk)
    ensures !run.aborted ==> run.saved == Count(saveOk, b => b) && run.saved + run.failed == |news|
  {
    var actions: seq<Action> := [];
    var i := 0;
    while i < |dels|
      invariant 0 <= i <= |dels|
      invariant i <= FirstFailure(deleteOk)
      invariant actions == Deletes(dels[..i])
    {
      if !deleteOk[i] {
        return Run(actions, true, 0, 0);
      }
      actions := actions + [Delete(dels[i].uid)];
      i := i + 1;
    }
    assert dels[..i] == dels;
    var saved, failed := 0, 0;
    var k := 0;
    while k < |news|
      invariant 0 <= k <= |news|
      invariant actions == Deletes(dels) + Saves(news[..k], saveOk[..k])
      invariant saved == Count(saveOk[..k], b => b) && saved + failed == k
    {
      SavesStep(news, saveOk, k);
      CountStep(saveOk, k, b => b);
      if saveOk[k] {
        actions := actions + [Save(news[k])];
        saved := saved + 1;
      } else {
        failed := failed + 1;
      }
      k := k + 1;
    }
    assert news[..k] == news && saveOk[..k] == saveOk;
    return Run(actions, false, saved, failed);
  }

  /** Why `update_calendar` stops before reaching the calendar. */
  datatype Failure =
    | UnknownName   // `name_to_row[username]` raises `KeyError`
    | NoValidDates  // `min(dates)` raises `ValueError` on an empty row

  /** The shifts to upload and the window to read the calendar for. */
  datatype Prepared = Prepared(shifts: seq<Shift>, earliest: DateTime, latest: DateTime)

  datatype Outcome = Ready(plan: Prepared) | Stopped(why: Failure)

  /** The slots of a user's row in a parsed roster. */
  function UserSlots(p: TermRoster.Parsed, userRow: nat): seq<Slot>
    requires p.dateRow < |p.roster| && userRow < |p.roster|
  {
    Slots(Row(p.roster, p.dateRow), Row(p.roster, userRow))
  }

  /**
   The roster half of `update_calendar`: look the user up, derive the user's
   shifts from the date row with the label test `keep`, and take the window
   from every date of the row. `Prepare(p, u, KeepLabel, env)` is the code as
   written; `KeepLabelIntended` gives the corrected test.
   */
  function Prepare(p: TermRoster.Parsed, username: string, keep: Value -> bool, env: Env): (r: Outcome)
    requires p.dateRow < |p.roster|
    requires forall name :: name in p.nameToRow ==> p.nameToRow[name] < |p.roster|
    ensures username !in p.nameToRow <==> r == Stopped(UnknownName)
    ensures username in p.nameToRow ==>
      (r == Stopped(NoValidDates) <==> DateCount(Row(p.roster, p.dateRow)) == 0)
    ensures r.Ready? ==> |r.plan.shifts| <= DateCount(Row(p.roster, p.dateRow))
    ensures r.Ready? ==> Le(r.plan.earliest, r.plan.latest)
    ensures r.Ready? ==> forall s :: s in r.plan.shifts ==>
      DateLe(r.plan.earliest.date, s.date) && DateLe(s.date, r.plan.latest.date)
    ensures r.Ready? ==> MinDateOfRow(p.roster, p.dateRow, r.plan.earliest)
    ensures r.Ready? ==> MaxDateOfRow(p.roster, p.dateRow, r.plan.latest)
  {
    if username !in p.nameToRow then Stopped(UnknownName)
    else
      var slots := UserSlots(p, p.nameToRow[username]);
      if slots == [] then Stopped(NoValidDates)
      else
        ShiftsInWindow(slots, keep, env);
        var lo := Earliest(slots);
        var hi := Latest(slots);
        EarliestOfRow(p.roster, p.dateRow, p.nameToRow[username]);
        LatestOfRow(p.roster, p.dateRow, p.nameToRow[username]);
        assert Le(lo, slots[0].at) && Le(slots[0].at, hi);
        LeTotalOrder();
        Ready(Prepared(Derive(slots, keep, env), lo, hi))
  }

  /** `dt` is a date-time of row `row`, and no date-time of the row is earlier (`min(dates)`). */
  predicate MinDateOfRow(g: Grid, row: nat, dt: DateTime)
    requires row < |g|
  {
    && (exists j :: 0 <= j < Width(g) && Cell(g, row, j) == Stamp(dt))
    && (forall j :: 0 <= j < Width(g) && Cell(g, row, j).Stamp? ==> Le(dt, Cell(g, row, j).at))
  }

  /** `dt` is a date-time of row `row`, and no date-time of the row is later (`max(dates)`). */
  predicate MaxDateOfRow(g: Grid, row: nat, dt: DateTime)
    requires row < |g|
  {
    && (exists j :: 0 <= j < Width(g) && Cell(g, row, j) == Stamp(dt))
    && (forall j :: 0 <= j < Width(g) && Cell(g, row, j).Stamp? ==> Le(Cell(g, row, j).at, dt))
  }

  /** The slot of a date-time column is among the slots of the two rows. */
  lemma ColumnSlot(g: Grid, dateRow: nat, userRow: nat, j: nat)
    requires dateRow < |g| && userRow < |g| && j < Width(g)
    requires Cell(g, dateRow, j).Stamp?
    ensures Slot(Cell(g, dateRow, j).at, Cell(g, userRow, j)) in Slots(Row(g, dateRow), Row(g, userRow))
  {
    RowAt(g, dateRow, j);
    RowAt(g, userRow, j);
  }

  /** The earliest slot is the earliest date-time of the whole date row. */
  lemma EarliestOfRow(g: Grid, dateRow: nat, userRow: nat)
    requires dateRow < |g| && userRow < |g|
    requires Slots(Row(g, dateRow), Row(g, userRow)) != []
    ensures MinDateOfRow(g, dateRow, Earliest(Slots(Row(g, dateRow), Row(g, userRow))))
  {
    var slots := Slots(Row(g, dateRow), Row(g, userRow));
    var lo := Earliest(slots);
    var i :| 0 <= i < |slots| && slots[i].at == lo;
    SlotFromColumn(g, dateRow, userRow, slots[i]);
    forall j | 0 <= j < Width(g) && Cell(g, dateRow, j).Stamp?
      ensures Le(lo, Cell(g, dateRow, j).at)
    {
      ColumnSlot(g, dateRow, userRow, j);
      var k :| 0 <= k < |slots| && slots[k] == Slot(Cell(g, dateRow, j).at, Cell(g, userRow, j));
    }
  }

  /** The latest slot is the latest date-time of the whole date row. */
  lemma LatestOfRow(g: Grid, dateRow: nat, userRow: nat)
    requires dateRow < |g| && userRow < |g|
    requires Slots(Row(g, dateRow), Row(g, userRow)) != []
    ensures MaxDateOfRow(g, dateRow, Latest(Slots(Row(g, dateRow), Row(g, userRow))))
  {
    var slots := Slots(Row(g, dateRow), Row(g, userRow));
    var hi := Latest(slots);
    var i :| 0 <= i < |slots| && slots[i].at == hi;
    SlotFromColumn(g, dateRow, userRow, slots[i]);
    forall j | 0 <= j < Width(g) && Cell(g, dateRow, j).Stamp?
      ensures Le(Cell(g, dateRow, j).at, hi)
    {
      ColumnSlot(g, dateRow, userRow, j);
      var k :| 0 <= k < |slots| && slots[k] == Slot(Cell(g, dateRow, j).at, Cell(g, userRow, j));
    }
  }

  /**
   Column `j` holds a date-time in the date row and a string label that
   passes `keep` in the user's row.
   */
  predicate Usable(g: Grid, dateRow: nat, userRow: nat, keep: Value -> bool, j: int)
    requires dateRow < |g| && userRow < |g|
  {
    && 0 <= j < Width(g)
    && Cell(g, dateRow, j).Stamp?
    && Cell(g, userRow, j).Text?
    && keep(Cell(g, userRow, j))
  }

  /** The shift of a usable column: its label on the date above it. */
  function ColumnShift(g: Grid, dateRow: nat, userRow: nat, keep: Value -> bool, env: Env, j: int): Shift
    requires dateRow < |g| && userRow < |g|
    requires Usable(g, dateRow, userRow, keep, j)
  {
    ShiftOf(Slot(Cell(g, dateRow, j).at, Cell(g, userRow, j)), env)
  }

  /** `s` is the shift of usable column `j`. */
  predicate FromColumn(g: Grid, dateRow: nat, userRow: nat, keep: Value -> bool, env: Env, j: int, s: Shift)
    requires dateRow < |g| && userRow < |g|
  {
    Usable(g, dateRow, userRow, keep, j) && s == ColumnShift(g, dateRow, userRow, keep, env, j)
  }

  /** A slot of two rows of a sheet comes from one column of the sheet. */
  lemma SlotFromColumn(g: Grid, dateRow: nat, userRow: nat, sl: Slot)
    requires dateRow < |g| && userRow < |g|
    requires sl in Slots(Row(g, dateRow), Row(g, userRow))
    ensures exists j :: 0 <= j < Width(g) && Cell(g, dateRow, j) == Stamp(sl.at) && Cell(g, userRow, j) == sl.cell
  {
    var dateLine := Row(g, dateRow);
    var userLine := Row(g, userRow);
    var r := Slots(dateLine, userLine);
    SlotsFromColumns(dateLine, userLine);
    var k :| 0 <= k < |r| && r[k] == sl;
    var j :| 0 <= j < |dateLine| && dateLine[j] == Stamp(r[k].at) && userLine[j] == r[k].cell;
    RowAt(g, dateRow, j);
    RowAt(g, userRow, j);
  }

  /** The shift of a kept slot of two rows comes from one column of the sheet. */
  lemma KeptSlotFromColumn(g: Grid, dateRow: nat, userRow: nat, keep: Value -> bool, env: Env, sl: Slot)
    requires dateRow < |g| && userRow < |g|
    requires sl in Slots(Row(g, dateRow), Row(g, userRow))
    requires Passes(sl, keep)
    ensures exists j :: FromColumn(g, dateRow, userRow, keep, env, j, ShiftOf(sl, env))
  {
    SlotFromColumn(g, dateRow, userRow, sl);
    var j :| 0 <= j < Width(g) && Cell(g, dateRow, j) == Stamp(sl.at) && Cell(g, userRow, j) == sl.cell;
    assert FromColumn(g, dateRow, userRow, keep, env, j, ShiftOf(sl, env));
  }

  /** A column with a date-time above and a passing label in the user's row gives a derived shift. */
  lemma ColumnDerived(g: Grid, dateRow: nat, userRow: nat, keep: Value -> bool, env: Env, j: nat)
    requires dateRow < |g| && userRow < |g|
    requires Usable(g, dateRow, userRow, keep, j)
    ensures ColumnShift(g, dateRow, userRow, keep, env, j) in Derive(Slots(Row(g, dateRow), Row(g, userRow)), keep, env)
  {
    var slots := Slots(Row(g, dateRow), Row(g, userRow));
    var sl := Slot(Cell(g, dateRow, j).at, Cell(g, userRow, j));
    RowAt(g, dateRow, j);
    RowAt(g, userRow, j);
    assert sl in slots;
    var i :| 0 <= i < |slots| && slots[i] == sl;
    SlotDerived(slots, keep, env, i);
  }

  /**
   The prepared shifts are exactly the shifts of the columns with a date-time
   above and a label passing the test in the user's row.
   */
  lemma PreparedShiftsFromRow(p: TermRoster.Parsed, username: string, keep: Value -> bool, env: Env)
    requires p.dateRow < |p.roster|
    requires forall name :: name in p.nameToRow ==> p.nameToRow[name] < |p.roster|
    requires Prepare(p, username, keep, env).Ready?
    ensures forall s :: s in Prepare(p, username, keep, env).plan.shifts ==>
      exists j :: FromColumn(p.roster, p.dateRow, p.nameToRow[username], keep, env, j, s)
    ensures forall j :: Usable(p.roster, p.dateRow, p.nameToRow[username], keep, j) ==>
      ColumnShift(p.roster, p.dateRow, p.nameToRow[username], keep, env, j) in Prepare(p, username, keep, env).plan.shifts
  {
    var userRow := p.nameToRow[username];
    var slots := UserSlots(p, userRow);
    var shifts := Derive(slots, keep, env);
    assert Prepare(p, username, keep, env).plan.shifts == shifts;
    DeriveExactly(slots, keep, env);
    forall s | s in shifts
      ensures exists j :: FromColumn(p.roster, p.dateRow, userRow, keep, env, j, s)
    {
      var i :| 0 <= i < |slots| && Passes(slots[i], keep) && s == ShiftOf(slots[i], env);
      KeptSlotFromColumn(p.roster, p.dateRow, userRow, keep, env, slots[i]);
    }
    forall j | Usable(p.roster, p.dateRow, userRow, keep, j)
      ensures ColumnShift(p.roster, p.dateRow, userRow, keep, env, j) in shifts
    {
      ColumnDerived(p.roster, p.dateRow, userRow, keep, env, j);
    }
  }
}
