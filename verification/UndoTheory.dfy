/** The write-undo log of src/undo.c as values: what logging, undoing and redoing do to a file and
    to the log.  WriteUndo.dfy proves the code against these functions.
 */
module UndoTheory {
  import opened Machine

  /** `struct undow_t`: the bytes `n` were written at `off` over the bytes `o`. */
  datatype Entry = Entry(off: nat, o: seq<Byte>, n: seq<Byte>, isSet: bool)

  /** The file after writing `data` at `off`. */
  function Patch(mem: seq<Byte>, off: nat, data: seq<Byte>): (r: seq<Byte>)
    requires off + |data| <= |mem|
    ensures |r| == |mem|
    ensures forall a {:trigger r[a]} :: 0 <= a < |mem| ==>
              r[a] == if off <= a < off + |data| then data[a - off] else mem[a]
  {
    mem[..off] + data + mem[off + |data|..]
  }

  ghost predicate Fits(e: Entry, size: nat) {
    |e.o| == |e.n| && e.off + |e.n| <= size
  }

  ghost predicate AllFit(log: seq<Entry>, size: nat) {
    forall i :: 0 <= i < |log| ==> Fits(log[i], size)
  }

  predicate Touches(e: Entry, a: int) {
    e.off <= a < e.off + |e.n|
  }

  /** Some logged write covers the address. */
  ghost predicate Logged(log: seq<Entry>, a: int) {
    exists i :: 0 <= i < |log| && Touches(log[i], a)
  }

  function Back(mem: seq<Byte>, e: Entry): (r: seq<Byte>)
    requires Fits(e, |mem|)
  {
    Patch(mem, e.off, e.o)
  }

  function Forth(mem: seq<Byte>, e: Entry): (r: seq<Byte>)
    requires Fits(e, |mem|)
  {
    Patch(mem, e.off, e.n)
  }

  /** The file after `undo_write_set_all(0)`: the old bytes of every entry, newest entry first. */
  ghost function UndoAll(log: seq<Entry>, mem: seq<Byte>): (r: seq<Byte>)
    requires AllFit(log, |mem|)
    ensures |r| == |mem|
    decreases |log|
  {
    if log == [] then mem
    else
      assert forall i :: 0 <= i < |log| - 1 ==> log[..|log| - 1][i] == log[i];
      UndoAll(log[..|log| - 1], Back(mem, log[|log| - 1]))
  }

  /** The file after `undo_write_set_all(1)`: the new bytes of every entry, newest entry first. */
  ghost function RedoAll(log: seq<Entry>, mem: seq<Byte>): (r: seq<Byte>)
    requires AllFit(log, |mem|)
    ensures |r| == |mem|
    decreases |log|
  {
    if log == [] then mem
    else
      assert forall i :: 0 <= i < |log| - 1 ==> log[..|log| - 1][i] == log[i];
      RedoAll(log[..|log| - 1], Forth(mem, log[|log| - 1]))
  }

  lemma AllFitInit(log: seq<Entry>, size: nat)
    requires log != [] && AllFit(log, size)
    ensures AllFit(log[..|log| - 1], size) && Fits(log[|log| - 1], size)
  {
  }

  lemma LoggedLast(log: seq<Entry>, a: int)
    requires log != []
    ensures Logged(log, a) <==> Touches(log[|log| - 1], a) || Logged(log[..|log| - 1], a)
  {
    var init := log[..|log| - 1];
    assert forall i :: 0 <= i < |init| ==> init[i] == log[i];
    if Logged(init, a) {
      var i :| 0 <= i < |init| && Touches(init[i], a);
      assert Touches(log[i], a);
    }
  }

  ghost predicate AgreeOutside(log: seq<Entry>, m1: seq<Byte>, m2: seq<Byte>)
    requires |m1| == |m2|
  {
    forall a :: 0 <= a < |m1| && !Logged(log, a) ==> m1[a] == m2[a]
  }

  /** Undoing everything gives the same file from any two files that differ only at logged
      addresses. */
  lemma {:induction false} UndoAllForgets(log: seq<Entry>, m1: seq<Byte>, m2: seq<Byte>)
    requires |m1| == |m2| && AllFit(log, |m1|)
    requires AgreeOutside(log, m1, m2)
    ensures UndoAll(log, m1) == UndoAll(log, m2)
    decreases |log|
  {
    if log == [] {
    } else {
      var init, e := log[..|log| - 1], log[|log| - 1];
      AllFitInit(log, |m1|);
      forall a | 0 <= a < |m1| && !Logged(init, a)
        ensures Back(m1, e)[a] == Back(m2, e)[a]
      {
        LoggedLast(log, a);
      }
      UndoAllForgets(init, Back(m1, e), Back(m2, e));
    }
  }

  /** Undoing everything leaves the other addresses alone. */
  lemma {:induction false} UndoAllKeeps(log: seq<Entry>, mem: seq<Byte>, a: nat)
    requires AllFit(log, |mem|) && a < |mem| && !Logged(log, a)
    ensures UndoAll(log, mem)[a] == mem[a]
    decreases |log|
  {
    if log != [] {
      AllFitInit(log, |mem|);
      LoggedLast(log, a);
      UndoAllKeeps(log[..|log| - 1], Back(mem, log[|log| - 1]), a);
    }
  }

  // ----- one operation after the other

  /** The file and its log since the last `undo_write_clear`. */
  datatype State = State(mem: seq<Byte>, log: seq<Entry>)

  ghost predicate Valid(s: State) {
    AllFit(s.log, |s.mem|)
  }

  /** The same bytes have been written at the same place before. */
  ghost predicate Duplicate(log: seq<Entry>, off: nat, data: seq<Byte>) {
    exists i :: 0 <= i < |log| && log[i].off == off && log[i].n == data
  }

  /** The log after `undo_write_new`. */
  ghost function LogWrite(s: State, off: nat, data: seq<Byte>): seq<Entry>
    requires off + |data| <= |s.mem|
  {
    if Duplicate(s.log, off, data) then s.log
    else s.log + [Entry(off, s.mem[off..off + |data|], data, true)]
  }

  /** A logged write. */
  ghost function Write(s: State, off: nat, data: seq<Byte>): State
    requires off + |data| <= |s.mem|
  {
    State(Patch(s.mem, off, data), LogWrite(s, off, data))
  }

  /** `undo_write_set_t` on the entry at position i. */
  function SetEntry(s: State, i: nat, redo: bool): State
    requires i < |s.log| && Fits(s.log[i], |s.mem|)
  {
    var e := s.log[i];
    State(if redo then Forth(s.mem, e) else Back(s.mem, e), s.log[i := e.(isSet := redo)])
  }

  /** `undo_write_set`: entry number n counting from the newest, if there is one. */
  ghost function Set(s: State, n: int, redo: bool): State
    requires Valid(s)
  {
    if 0 <= n < |s.log| then SetEntry(s, |s.log| - 1 - n, redo) else s
  }

  function Mark(log: seq<Entry>, redo: bool): (r: seq<Entry>)
    ensures |r| == |log|
    ensures forall i {:trigger r[i]} :: 0 <= i < |log| ==> r[i] == log[i].(isSet := redo)
  {
    seq(|log|, i requires 0 <= i < |log| => log[i].(isSet := redo))
  }

  /** `undo_write_set_all`. */
  ghost function SetAll(s: State, redo: bool): State
    requires Valid(s)
  {
    State(if redo then RedoAll(s.log, s.mem) else UndoAll(s.log, s.mem), Mark(s.log, redo))
  }

  /** The loop of `undo_write_set_all` on its way from s0 to s, with the entries before position p still to do. */
  ghost predicate SetDownTo(s0: State, p: nat, redo: bool, s: State)
    requires Valid(s0)
  {
    && p <= |s0.log| == |s.log| && |s.mem| == |s0.mem|
    && (forall i :: 0 <= i < p ==> s.log[i] == s0.log[i])
    && (forall i :: p <= i < |s.log| ==> s.log[i] == s0.log[i].(isSet := redo))
    && AllFit(s0.log[..p], |s.mem|)
    && (if redo then RedoAll(s0.log[..p], s.mem) else UndoAll(s0.log[..p], s.mem)) == SetAll(s0, redo).mem
  }

  lemma SetDownFrom(s: State, redo: bool)
    requires Valid(s)
    ensures SetDownTo(s, |s.log|, redo, s)
  {
    assert s.log[..|s.log|] == s.log;
  }

  lemma SetDownStep(s0: State, p: nat, redo: bool, s: State)
    requires Valid(s0) && p < |s0.log| && SetDownTo(s0, p + 1, redo, s)
    ensures Fits(s.log[p], |s.mem|) && SetDownTo(s0, p, redo, SetEntry(s, p, redo))
  {
    assert s0.log[..p + 1][..p] == s0.log[..p] && s0.log[..p + 1][p] == s0.log[p];
    assert forall i :: 0 <= i < p ==> s0.log[..p][i] == s0.log[i];
  }

  lemma SetDownAll(s0: State, redo: bool, s: State)
    requires Valid(s0) && SetDownTo(s0, 0, redo, s)
    ensures s == SetAll(s0, redo)
  {
    assert s.log == Mark(s0.log, redo);
  }

  datatype Command = DoWrite(off: nat, data: seq<Byte>) | DoSet(n: int, redo: bool) | DoSetAll(redo: bool)

  ghost predicate Applicable(c: Command, size: nat) {
    c.DoWrite? ==> c.off + |c.data| <= size
  }

  ghost function Do(s: State, c: Command): State
    requires Valid(s) && Applicable(c, |s.mem|)
  {
    match c
    case DoWrite(off, data) => Write(s, off, data)
    case DoSet(n, redo) => Set(s, n, redo)
    case DoSetAll(redo) => SetAll(s, redo)
  }

  /** The command writes inside the file and leads from s to t. */
  ghost predicate Step(s: State, c: Command, t: State) {
    Applicable(c, |s.mem|) && (Valid(s) ==> t == Do(s, c))
  }

  /** Undoing everything from here would give the file `base`. */
  ghost predicate Recovers(s: State, base: seq<Byte>) {
    Valid(s) && UndoAll(s.log, s.mem) == base
  }

  lemma AppendFits(log: seq<Entry>, e: Entry, mem: seq<Byte>)
    requires AllFit(log, |mem|) && Fits(e, |mem|)
    ensures AllFit(log + [e], |mem|) && UndoAll(log + [e], mem) == UndoAll(log, Back(mem, e))
  {
    assert (log + [e])[..|log|] == log;
  }

  lemma WriteRecovers(s: State, off: nat, data: seq<Byte>, base: seq<Byte>)
    requires Recovers(s, base) && off + |data| <= |s.mem|
    ensures Recovers(Write(s, off, data), base)
  {
    var mem := Patch(s.mem, off, data);
    if Duplicate(s.log, off, data) {
      var i :| 0 <= i < |s.log| && s.log[i].off == off && s.log[i].n == data;
      forall a | 0 <= a < |mem| && !Logged(s.log, a)
        ensures mem[a] == s.mem[a]
      {
        assert !Touches(s.log[i], a);
      }
      UndoAllForgets(s.log, mem, s.mem);
    } else {
      var e := Entry(off, s.mem[off..off + |data|], data, true);
      AppendFits(s.log, e, mem);
      assert Back(mem, e) == s.mem;
    }
  }

  /** The flag of an entry plays no part in undoing. */
  lemma {:induction false} FlagsIrrelevant(log: seq<Entry>, marked: seq<Entry>, mem: seq<Byte>)
    requires AllFit(log, |mem|) && |marked| == |log|
    requires forall i :: 0 <= i < |log| ==> marked[i] == log[i].(isSet := marked[i].isSet)
    ensures AllFit(marked, |mem|)
    ensures UndoAll(marked, mem) == UndoAll(log, mem)
    decreases |log|
  {
    assert forall i :: 0 <= i < |log| ==> Fits(log[i], |mem|);
    if log != [] {
      var n := |log| - 1;
      AllFitInit(log, |mem|);
      FlagsIrrelevant(log[..n], marked[..n], Back(mem, log[n]));
    }
  }

  lemma SetRecovers(s: State, n: int, redo: bool, base: seq<Byte>)
    requires Recovers(s, base)
    ensures Recovers(Set(s, n, redo), base)
  {
    if 0 <= n < |s.log| {
      var i := |s.log| - 1 - n;
      var t := SetEntry(s, i, redo);
      forall a | 0 <= a < |s.mem| && !Logged(s.log, a)
        ensures t.mem[a] == s.mem[a]
      {
        assert !Touches(s.log[i], a);
      }
      UndoAllForgets(s.log, t.mem, s.mem);
      FlagsIrrelevant(s.log, t.log, t.mem);
    }
  }

  lemma {:induction false} RedoAllKeeps(log: seq<Entry>, mem: seq<Byte>, a: nat)
    requires AllFit(log, |mem|) && a < |mem| && !Logged(log, a)
    ensures RedoAll(log, mem)[a] == mem[a]
    decreases |log|
  {
    if log != [] {
      AllFitInit(log, |mem|);
      LoggedLast(log, a);
      RedoAllKeeps(log[..|log| - 1], Forth(mem, log[|log| - 1]), a);
    }
  }

  lemma SetAllRecovers(s: State, redo: bool, base: seq<Byte>)
    requires Recovers(s, base)
    ensures Recovers(SetAll(s, redo), base)
  {
    var t := SetAll(s, redo);
    forall a | 0 <= a < |s.mem| && !Logged(s.log, a)
      ensures t.mem[a] == s.mem[a]
    {
      if redo {
        RedoAllKeeps(s.log, s.mem, a);
      } else {
        UndoAllKeeps(s.log, s.mem, a);
      }
    }
    UndoAllForgets(s.log, t.mem, s.mem);
    FlagsIrrelevant(s.log, t.log, t.mem);
  }

  /** After any run of logged writes, undos and redos that starts with an empty log, undoing
      everything restores exactly the file the run started from. */
  lemma {:induction false} UndoAllRestores(states: seq<State>, commands: seq<Command>, k: nat)
    requires |states| == |commands| + 1 && k < |states|
    requires states[0].log == []
    requires forall i :: 0 <= i < |commands| ==> Step(states[i], commands[i], states[i + 1])
    ensures Valid(states[k]) && SetAll(states[k], false).mem == states[0].mem
  {
    if k > 0 {
      UndoAllRestores(states, commands, k - 1);
      assert Step(states[k - 1], commands[k - 1], states[k]);
      var s, base := states[k - 1], states[0].mem;
      match commands[k - 1]
      case DoWrite(off, data) => WriteRecovers(s, off, data, base);
      case DoSet(n, redo) => SetRecovers(s, n, redo, base);
      case DoSetAll(redo) => SetAllRecovers(s, redo, base);
    }
  }

  // ----- single undos and redos

  /** An undo (redo) of the n-th newest entry puts its old (new) bytes back where it wrote, leaves the rest of
      the file and all other entries alone, and sets its flag. */
  lemma SetBytes(s: State, n: nat, redo: bool)
    requires Valid(s) && n < |s.log|
    ensures var t, i := Set(s, n, redo), |s.log| - 1 - n; var e := s.log[i];
            && |t.mem| == |s.mem| && |t.log| == |s.log|
            && (forall a :: 0 <= a < |s.mem| ==>
                  t.mem[a] == if !(e.off <= a < e.off + |e.n|) then s.mem[a]
                              else if redo then e.n[a - e.off] else e.o[a - e.off])
            && t.log[i].off == e.off && t.log[i].o == e.o && t.log[i].n == e.n && t.log[i].isSet == redo
            && forall j :: 0 <= j < |s.log| && j != i ==> t.log[j] == s.log[j]
  {
    assert Fits(s.log[|s.log| - 1 - n], |s.mem|);
  }

  /** After a write that is not a repetition, undoing the newest entry leads back, and redoing it leads forth again. */
  lemma UndoLast(s: State, off: nat, data: seq<Byte>)
    requires Valid(s) && off + |data| <= |s.mem| && !Duplicate(s.log, off, data)
    ensures var t := Write(s, off, data); var u := Set(t, 0, false);
            && Valid(t) && Valid(u) && t.log[|s.log|].isSet && !u.log[|s.log|].isSet
            && u.mem == s.mem && Set(u, 0, true) == t
  {
    var t := Write(s, off, data);
    var e := t.log[|s.log|];
    assert Back(t.mem, e) == s.mem && Forth(s.mem, e) == t.mem;
    var u := Set(t, 0, false);
    assert Set(u, 0, true).log == t.log;
  }

  /** After any write, undoing the newest entry leads back if and only if the write was no repetition, or changed
      nothing besides the newest entry, whose old bytes the file held. */
  lemma UndoLastExactly(s: State, off: nat, data: seq<Byte>)
    requires Valid(s) && off + |data| <= |s.mem|
    ensures var t := Write(s, off, data);
            Valid(t) && (Set(t, 0, false).mem == s.mem <==> !Duplicate(s.log, off, data) || OnlyNewest(s, off, data))
  {
    if !Duplicate(s.log, off, data) {
      UndoLast(s, off, data);
    } else {
      var e := s.log[|s.log| - 1];
      assert Fits(e, |s.mem|);
      BackTo(s.mem, off, data, e);
    }
  }

  lemma BackTo(mem: seq<Byte>, off: nat, data: seq<Byte>, e: Entry)
    requires off + |data| <= |mem| && Fits(e, |mem|)
    ensures Back(Patch(mem, off, data), e) == mem <==>
            && (forall a :: off <= a < off + |data| && a < |mem| && !Touches(e, a) ==> data[a - off] == mem[a])
            && forall a :: 0 <= a < |mem| && Touches(e, a) ==> e.o[a - e.off] == mem[a]
  {
    var back := Back(Patch(mem, off, data), e);
    if back == mem {
      assert forall a :: off <= a < off + |data| && !Touches(e, a) ==> back[a] == data[a - off];
      assert forall a :: 0 <= a < |mem| && Touches(e, a) ==> back[a] == e.o[a - e.off];
    }
  }

  ghost predicate OnlyNewest(s: State, off: nat, data: seq<Byte>)
    requires Valid(s) && s.log != []
  {
    var e := s.log[|s.log| - 1];
    assert Fits(e, |s.mem|);
    && (forall a :: off <= a < off + |data| && a < |s.mem| && !Touches(e, a) ==> data[a - off] == s.mem[a])
    && forall a :: 0 <= a < |s.mem| && Touches(e, a) ==> e.o[a - e.off] == s.mem[a]
  }

  /** Undoing the entries 0, 1, ..., k - 1 in turn. */
  ghost function UndoTurns(s: State, k: nat): (r: State)
    requires Valid(s) && k <= |s.log|
    ensures Valid(r) && |r.mem| == |s.mem| && |r.log| == |s.log|
    ensures forall i :: 0 <= i < |s.log| ==> r.log[i] == s.log[i].(isSet := r.log[i].isSet)
  {
    if k == 0 then s
    else
      var r := UndoTurns(s, k - 1);
      assert Fits(r.log[|r.log| - k], |r.mem|) && forall i :: 0 <= i < |r.log| ==> Fits(r.log[i], |r.mem|);
      Set(r, k - 1, false)
  }

  /** A write that the log takes up. */
  ghost predicate LoggedWrite(s: State, c: Command, t: State) {
    c.DoWrite? && Step(s, c, t) && !Duplicate(s.log, c.off, c.data)
  }

  /** Undoing the entry of a logged write on the file behind it gives the file before. */
  lemma TurnBack(s: State, c: Command, t: State, r: State)
    requires Valid(s) && LoggedWrite(s, c, t) && Valid(r) && r.mem == t.mem
    requires |s.log| < |r.log| && r.log[|s.log|] == t.log[|s.log|].(isSet := r.log[|s.log|].isSet)
    ensures Set(r, |r.log| - 1 - |s.log|, false).mem == s.mem
  {
    var e := r.log[|s.log|];
    assert e.off == c.off && e.o == s.mem[c.off..c.off + |c.data|] && e.n == c.data;
    assert Back(r.mem, e) == s.mem;
  }

  lemma {:induction false} LogsGrow(states: seq<State>, commands: seq<Command>, n: nat)
    requires |states| == |commands| + 1 && n < |states| && states[0].log == []
    requires forall i :: 0 <= i < |commands| ==> LoggedWrite(states[i], commands[i], states[i + 1])
    ensures forall i :: 0 <= i <= n ==> Valid(states[i]) && |states[i].log| == i && states[i].log <= states[n].log
  {
    if n > 0 {
      LogsGrow(states, commands, n - 1);
      assert LoggedWrite(states[n - 1], commands[n - 1], states[n]);
      assert states[n - 1].log <= states[n].log;
    }
  }

  /** After a run of logged writes without repetitions, undoing the k newest entries in turn gives the file before
      the last k writes. */
  lemma {:induction false} UndoTurnsBack(states: seq<State>, commands: seq<Command>, n: nat, k: nat)
    requires |states| == |commands| + 1 && k <= n < |states| && states[0].log == []
    requires forall i :: 0 <= i < |commands| ==> LoggedWrite(states[i], commands[i], states[i + 1])
    ensures Valid(states[n]) && |states[n].log| == n
    ensures UndoTurns(states[n], k).mem == states[n - k].mem
  {
    LogsGrow(states, commands, n);
    if k > 0 {
      var r, j := UndoTurns(states[n], k - 1), n - k;
      UndoTurnsBack(states, commands, n, k - 1);
      assert states[j + 1].log <= states[n].log;
      assert LoggedWrite(states[j], commands[j], states[j + 1]);
      TurnBack(states[j], commands[j], states[j + 1], r);
    }
  }

  /** Writing 1 and 2 to one byte and 1 again: the undo takes back the second write, not the third. */
  lemma UndoLastMisses()
    ensures var s := Write(Write(State([0], []), 0, [1]), 0, [2]); var t := Write(s, 0, [1]);
            Valid(t) && t.mem == [1] && s.mem == [2] && Set(t, 0, false).mem == [1]
  {
    var s1 := Write(State([0], []), 0, [1]);
    var e1, e2 := Entry(0, [0], [1], true), Entry(0, [1], [2], true);
    assert s1 == State([1], [e1]) by {
      var file: seq<Byte> := [0];
      assert file[0..1] == file && Patch(file, 0, [1]) == [1];
    }
    var s2 := Write(s1, 0, [2]);
    assert s2 == State([2], [e1, e2]);
    assert s2.log[0].n == [1];
    assert Write(s2, 0, [1]) == State([1], [e1, e2]);
    assert Back([1], e2) == [1];
  }

  /** A write that bypasses the log (`file.undowrite` is off) can be undone if and only if it changes
      bytes at logged addresses only. */
  lemma UnloggedWrite(s: State, off: nat, data: seq<Byte>)
    requires Valid(s) && off + |data| <= |s.mem|
    ensures UndoAll(s.log, Patch(s.mem, off, data)) == UndoAll(s.log, s.mem) <==>
            forall a :: off <= a < off + |data| && data[a - off] != s.mem[a] ==> Logged(s.log, a)
  {
    var mem := Patch(s.mem, off, data);
    if UndoAll(s.log, mem) == UndoAll(s.log, s.mem) {
      forall a | off <= a < off + |data| && !Logged(s.log, a)
        ensures data[a - off] == s.mem[a]
      {
        UndoAllKeeps(s.log, mem, a);
        UndoAllKeeps(s.log, s.mem, a);
      }
    } else if forall a :: off <= a < off + |data| && data[a - off] != s.mem[a] ==> Logged(s.log, a) {
      UndoAllForgets(s.log, mem, s.mem);
    }
  }

  // ----- redo-all runs newest first

  /** The byte that the oldest logged write put at the address. */
  ghost function OldestByte(log: seq<Entry>, a: int): Byte
    requires Logged(log, a)
    decreases |log|
  {
    LoggedLast(log, a);
    var init, e := log[..|log| - 1], log[|log| - 1];
    if Logged(init, a) then OldestByte(init, a) else e.n[a - e.off]
  }

  lemma {:induction false} RedoAllByte(log: seq<Entry>, mem: seq<Byte>, a: nat)
    requires AllFit(log, |mem|) && a < |mem| && Logged(log, a)
    ensures RedoAll(log, mem)[a] == OldestByte(log, a)
    decreases |log|
  {
    AllFitInit(log, |mem|);
    LoggedLast(log, a);
    var init, e := log[..|log| - 1], log[|log| - 1];
    if Logged(init, a) {
      RedoAllByte(init, Forth(mem, e), a);
    } else {
      RedoAllKeeps(init, Forth(mem, e), a);
    }
  }

  /** At every logged address the file holds what the oldest write put there. */
  ghost predicate HoldsOldest(log: seq<Entry>, mem: seq<Byte>) {
    forall a :: 0 <= a < |mem| && Logged(log, a) ==> OldestByte(log, a) == mem[a]
  }

  /** Redoing everything on a file leads to a later one, which differs from it at logged addresses only, if
      and only if the later file holds the oldest bytes. */
  lemma {:induction false} RedoAllExact(log: seq<Entry>, mem: seq<Byte>, later: seq<Byte>)
    requires |mem| == |later| && AllFit(log, |mem|) && AgreeOutside(log, mem, later)
    ensures RedoAll(log, mem) == later <==> HoldsOldest(log, later)
  {
    forall a | 0 <= a < |mem|
      ensures RedoAll(log, mem)[a] == if Logged(log, a) then OldestByte(log, a) else later[a]
    {
      if Logged(log, a) {
        RedoAllByte(log, mem, a);
      } else {
        RedoAllKeeps(log, mem, a);
      }
    }
    if HoldsOldest(log, later) {
      assert RedoAll(log, mem) == later;
    }
  }

  /** Undo-all and then redo-all lead back to the same file if and only if it holds, at every logged address,
      what the oldest write put there.  Repeated writes may have been dropped from the log, and any
      entries may have been undone and redone before. */
  lemma RedoAfterUndo(s: State)
    requires Valid(s)
    ensures SetAll(SetAll(s, false), true).mem == s.mem <==> HoldsOldest(s.log, s.mem)
  {
    var t := SetAll(s, false);
    forall a | 0 <= a < |s.mem| && !Logged(s.log, a)
      ensures t.mem[a] == s.mem[a]
    {
      UndoAllKeeps(s.log, s.mem, a);
    }
    RedoIgnoresFlags(s.log, t.log, t.mem);
    RedoAllExact(s.log, t.mem, s.mem);
  }

  lemma {:induction false} RedoIgnoresFlags(log: seq<Entry>, marked: seq<Entry>, mem: seq<Byte>)
    requires AllFit(log, |mem|) && |marked| == |log|
    requires forall i :: 0 <= i < |log| ==> marked[i] == log[i].(isSet := marked[i].isSet)
    ensures AllFit(marked, |mem|)
    ensures RedoAll(marked, mem) == RedoAll(log, mem)
    decreases |log|
  {
    assert forall i :: 0 <= i < |log| ==> Fits(log[i], |mem|);
    if log != [] {
      var n := |log| - 1;
      AllFitInit(log, |mem|);
      RedoIgnoresFlags(log[..n], marked[..n], Forth(mem, log[n]));
    }
  }

  // ----- writes that do not overlap

  ghost predicate NonOverlapping(log: seq<Entry>) {
    forall i, j, a :: 0 <= i < j < |log| ==> !(Touches(log[i], a) && Touches(log[j], a))
  }

  lemma {:induction false} OnlyWriter(log: seq<Entry>, i: nat, a: int)
    requires NonOverlapping(log) && i < |log| && Touches(log[i], a)
    ensures Logged(log, a) && OldestByte(log, a) == log[i].n[a - log[i].off]
    decreases |log|
  {
    LoggedLast(log, a);
    var init := log[..|log| - 1];
    assert forall j :: 0 <= j < |init| ==> init[j] == log[j];
    if i < |init| {
      OnlyWriter(init, i, a);
    } else {
      assert !Logged(init, a);
    }
  }

  lemma WriteHoldsOldest(s: State, off: nat, data: seq<Byte>)
    requires Valid(s) && HoldsOldest(s.log, s.mem) && off + |data| <= |s.mem|
    requires NonOverlapping(Write(s, off, data).log)
    ensures var t := Write(s, off, data); HoldsOldest(t.log, t.mem)
  {
    var log, mem := Write(s, off, data).log, Patch(s.mem, off, data);
    var w: nat := |s.log|;
    if Duplicate(s.log, off, data) {
      w :| w < |s.log| && s.log[w].off == off && s.log[w].n == data;
    } else {
      assert log[..w] == s.log;
    }
    forall a | 0 <= a < |mem| && Logged(log, a)
      ensures OldestByte(log, a) == mem[a]
    {
      if Touches(log[w], a) {
        OnlyWriter(log, w, a);
      } else {
        LoggedLast(log, a);
      }
    }
  }

  lemma NonOverlappingPrefix(log: seq<Entry>, more: seq<Entry>)
    requires log <= more && NonOverlapping(more)
    ensures NonOverlapping(log)
  {
    assert forall i :: 0 <= i < |log| ==> log[i] == more[i];
  }

  /** After any run of logged writes from an empty log, pairwise without overlap but for repetitions,
      undo-all and redo-all lead back to the file. */
  lemma {:induction false} RedoOfNonOverlapping(states: seq<State>, commands: seq<Command>, k: nat)
    requires |states| == |commands| + 1 && k < |states|
    requires states[0].log == [] && NonOverlapping(states[k].log)
    requires forall i :: 0 <= i < |commands| ==> commands[i].DoWrite? && Step(states[i], commands[i], states[i + 1])
    ensures Valid(states[k]) && HoldsOldest(states[k].log, states[k].mem)
    ensures SetAll(SetAll(states[k], false), true).mem == states[k].mem
  {
    UndoAllRestores(states, commands, k);
    if k > 0 {
      var s, t, c := states[k - 1], states[k], commands[k - 1];
      UndoAllRestores(states, commands, k - 1);
      assert Step(s, c, t);
      NonOverlappingPrefix(s.log, t.log);
      RedoOfNonOverlapping(states, commands, k - 1);
      WriteHoldsOldest(s, c.off, c.data);
    }
    RedoAfterUndo(states[k]);
  }

  // ----- what redo-all gets wrong

  /** Writing 1 and then 2 to the same byte: redone the wrong way round. */
  lemma RedoAllReverses()
    ensures var s := Write(Write(State([0], []), 0, [1]), 0, [2]);
            Valid(s) && s.mem == [2] && SetAll(SetAll(s, false), true).mem == [1]
  {
    var s1 := Write(State([0], []), 0, [1]);
    var e1, e2 := Entry(0, [0], [1], true), Entry(0, [1], [2], true);
    assert s1 == State([1], [e1]) by {
      var file: seq<Byte> := [0];
      assert file[0..1] == file && Patch(file, 0, [1]) == [1];
    }
    var s := Write(s1, 0, [2]);
    assert s == State([2], [e1, e2]);
    RedoWithDuplicate(s, e1, e2);
  }

  /** Writing 1 once more is dropped from the log, and then redo-all happens to lead back. */
  lemma RedoAllOfRepetition()
    ensures var s := Write(Write(Write(State([0], []), 0, [1]), 0, [2]), 0, [1]);
            Valid(s) && |s.log| == 2 && s.mem == [1] && SetAll(SetAll(s, false), true).mem == [1]
  {
    var s1 := Write(State([0], []), 0, [1]);
    var e1, e2 := Entry(0, [0], [1], true), Entry(0, [1], [2], true);
    assert s1 == State([1], [e1]) by {
      var file: seq<Byte> := [0];
      assert file[0..1] == file && Patch(file, 0, [1]) == [1];
    }
    var s2 := Write(s1, 0, [2]);
    assert s2 == State([2], [e1, e2]);
    var s := Write(s2, 0, [1]);
    assert s2.log[0].n == [1];
    assert s == State([1], [e1, e2]);
    RedoWithDuplicate(s, e1, e2);
  }

  lemma RedoWithDuplicate(s: State, e1: Entry, e2: Entry)
    requires |s.mem| == 1 && s.log == [e1, e2] && e1.off == e2.off == 0 && |e1.o| == |e1.n| == |e2.o| == |e2.n| == 1
    ensures Valid(s) && SetAll(SetAll(s, false), true).mem == e1.n
  {
    var t := SetAll(s, false);
    assert Touches(t.log[0], 0);
    assert Logged(t.log[..1], 0) by {
      assert Touches(t.log[..1][0], 0);
    }
    assert !Logged(t.log[..1][..0], 0);
    RedoAllByte(t.log, t.mem, 0);
  }
}
