/** The seek history of src/undo.c: a 64-slot array with a cursor, proved to be a sliding window on
    an unbounded undo/redo history.

    The model starts after the first `undo_push`: before it, `undo_push` and `undo_seek` read
    the slot in front of the array.
 */
module SeekHistory {
  import opened Machine

  /** `UNDOS`. */
  const UNDOS := 64

  /** An undo/redo history without bound: all recorded seeks, of which the first `at` are behind the
      cursor. */
  datatype History = History(seeks: seq<U64>, at: nat)

  predicate Ok(h: History) {
    1 <= h.at <= |h.seeks|
  }

  /** Record a seek unless it is the one just recorded.  Recording after undos overwrites the next
      slot and leaves the later ones to be redone. */
  function Push(h: History, seek: U64): (r: History)
    requires Ok(h)
    ensures Ok(r)
  {
    if h.seeks[h.at - 1] == seek then h
    else if h.at < |h.seeks| then History(h.seeks[h.at := seek], h.at + 1)
    else History(h.seeks + [seek], h.at + 1)
  }

  /** Recording makes the seek the newest one behind the cursor, in front of which nothing changes and behind which
      only the next slot does; recording the newest seek once more changes nothing. */
  lemma PushRecords(h: History, seek: U64)
    requires Ok(h)
    ensures var r, n := Push(h, seek), h.at;
            && r.seeks[r.at - 1] == seek && n <= r.at <= n + 1 && r.seeks[..n] == h.seeks[..n]
            && (h.seeks[n - 1] == seek <==> r == h)
            && (r != h ==> r.at == n + 1)
            && |r.seeks| == (if r.at > |h.seeks| then r.at else |h.seeks|)
            && forall i :: n < i < |h.seeks| ==> r.seeks[i] == h.seeks[i]
  {
  }

  function Undo(h: History): (r: History)
    requires Ok(h) && 2 <= h.at
    ensures Ok(r)
  {
    h.(at := h.at - 1)
  }

  function Redo(h: History): (r: History)
    requires Ok(h)
    ensures Ok(r)
  {
    if h.at < |h.seeks| then h.(at := h.at + 1) else h
  }

  /** w is the end of the history, up to UNDOS - 1 seeks of it, and its first idx seeks are those
      behind the cursor. */
  ghost predicate Window(h: History, w: seq<U64>, idx: nat) {
    && |w| <= |h.seeks| && (|w| == UNDOS - 1 || |w| == |h.seeks|)
    && |h.seeks| - |w| == h.at - idx
    && forall i {:trigger w[i]} :: 0 <= i < |w| ==> w[i] == h.seeks[|h.seeks| - |w| + i]
  }

  /** How the window moves when a seek is recorded. */
  function WindowPush(w: seq<U64>, idx: nat, seek: U64): seq<U64>
    requires idx <= |w| <= UNDOS - 1
  {
    if idx == UNDOS - 1 then w[1..] + [seek] else if idx < |w| then w[idx := seek] else w + [seek]
  }

  lemma {:induction false} WindowFollows(h: History, w: seq<U64>, idx: nat, seek: U64)
    requires Ok(h) && 1 <= idx <= |w| <= UNDOS - 1 && Window(h, w, idx)
    ensures w[idx - 1] == h.seeks[h.at - 1]
    ensures h.seeks[h.at - 1] != seek ==>
              Window(Push(h, seek), WindowPush(w, idx, seek), if idx == UNDOS - 1 then idx else idx + 1)
  {
    var w', h' := WindowPush(w, idx, seek), Push(h, seek);
    if h.seeks[h.at - 1] != seek {
      forall i | 0 <= i < |w'|
        ensures w'[i] == h'.seeks[|h'.seeks| - |w'| + i]
      {
        var from := if idx == UNDOS - 1 then i + 1 else i;
        if from < |w| && from != idx {
          assert w'[i] == w[from] == h.seeks[|h.seeks| - |w| + from];
        }
      }
    }
  }

  /** The history together with `config.seek`. */
  datatype View = View(history: History, seek: U64)

  function UndoView(v: View): View
    requires Ok(v.history) && 2 <= v.history.at
  {
    var h := Undo(v.history);
    View(h, h.seeks[h.at - 1])
  }

  function RedoView(v: View): View
    requires Ok(v.history)
  {
    if v.history.at < |v.history.seeks| then
      var h := Redo(v.history);
      View(h, h.seeks[h.at - 1])
    else v
  }

  function UndoTimes(v: View, k: nat): (r: View)
    requires Ok(v.history) && k < v.history.at
    ensures r.history == v.history.(at := v.history.at - k)
  {
    if k == 0 then v else UndoView(UndoTimes(v, k - 1))
  }

  function RedoTimes(v: View, k: nat): (r: View)
    requires Ok(v.history)
    ensures Ok(r.history) && r.history.seeks == v.history.seeks
  {
    if k == 0 then v else RedoView(RedoTimes(v, k - 1))
  }

  lemma {:induction false} RedoTimesAt(v: View, k: nat)
    requires Ok(v.history) && v.history.at + k <= |v.history.seeks|
    ensures RedoTimes(v, k).history.at == v.history.at + k
    ensures k > 0 ==> RedoTimes(v, k).seek == v.history.seeks[v.history.at + k - 1]
  {
    if k > 0 {
      RedoTimesAt(v, k - 1);
    }
  }

  /** k undos and then k redos lead back to the same cursor, and to the same seek if and only if the
      seek was the one just recorded (or k is 0). */
  lemma UndoRedo(v: View, k: nat)
    requires Ok(v.history) && k < v.history.at
    ensures RedoTimes(UndoTimes(v, k), k).history == v.history
    ensures RedoTimes(UndoTimes(v, k), k) == v <==> k == 0 || v.seek == v.history.seeks[v.history.at - 1]
  {
    RedoTimesAt(UndoTimes(v, k), k);
  }

  /** One undo after a seek was recorded shows the seek before, and one redo shows the recorded one again. */
  lemma PushUndo(h: History, seek: U64)
    requires Ok(h) && h.seeks[h.at - 1] != seek
    ensures var v := View(Push(h, seek), seek);
            && UndoView(v).seek == h.seeks[h.at - 1] && UndoView(v).history.at == h.at
            && RedoView(UndoView(v)) == v
  {
    PushRecords(h, seek);
  }

  /** Undoing k times shows the k-th seek before the one just recorded. */
  lemma UndoTimesSeek(v: View, k: nat)
    requires Ok(v.history) && 0 < k < v.history.at
    ensures UndoTimes(v, k).seek == v.history.seeks[v.history.at - k - 1]
  {
  }

  class SeekUndo {
    const undos: array<U64>
    var idx: nat
    var lim: nat
    /** `config.seek`. */
    var seek: U64
    /** The unbounded history that the array shows the end of. */
    ghost var history: History

    ghost predicate Valid()
      reads this, undos
    {
      && undos.Length == UNDOS
      && 1 <= idx <= lim <= UNDOS - 1
      && Ok(history)
      && Window(history, undos[..lim], idx)
    }

    /** The state after the first `undo_push`. */
    constructor (seek: U64)
      ensures Valid() && history == History([seek], 1) && this.seek == seek && fresh(undos)
    {
      undos := new U64[UNDOS](_ => 0);
      this.seek := seek;
      idx, lim := 1, 1;
      history := History([seek], 1);
      new;
      undos[0] := seek;
    }

    /** The loop of `undo_push` that drops the oldest slot. */
    method Shift()
      requires undos.Length == UNDOS
      modifies undos
      ensures undos[..UNDOS - 1] == old(undos[1..])
    {
      var i := 1;
      while i < UNDOS
        invariant 1 <= i <= UNDOS
        invariant forall j :: 0 <= j < i - 1 ==> undos[j] == old(undos[j + 1])
        invariant forall j :: i - 1 <= j < UNDOS ==> undos[j] == old(undos[j])
      {
        undos[i - 1] := undos[i];
        i := i + 1;
      }
    }

    /** The part of `undo_push` that stores the seek. */
    method Store()
      requires undos.Length == UNDOS && 1 <= idx <= lim <= UNDOS - 1
      modifies this`idx, this`lim, undos
      ensures idx == if old(idx) == UNDOS - 1 then old(idx) else old(idx) + 1
      ensures lim == if old(lim) < idx then idx else old(lim)
      ensures undos[..lim] == WindowPush(old(undos[..lim]), old(idx), seek)
    {
      ghost var w := undos[..lim];
      undos[idx] := seek;
      if idx == UNDOS - 1 {
        Shift();
        assert undos[..lim] == w[1..] + [seek];
      } else {
        assert undos[..lim] == if idx < lim then w[idx := seek] else w;
        idx := idx + 1;
      }
      if lim < idx {
        lim := idx;
      }
    }

    /** `undo_push`. */
    method RecordSeek()
      requires Valid()
      modifies this`idx, this`lim, this`history, undos
      ensures Valid() && history == Push(old(history), seek)
    {
      WindowFollows(history, undos[..lim], idx, seek);
      assert undos[..lim][idx - 1] == undos[idx - 1];
      if undos[idx - 1] == seek {
        return;
      }
      history := Push(history, seek);
      Store();
    }

    /** `undo_seek`, from the second slot on. */
    method UndoSeek()
      requires Valid() && 2 <= idx
      modifies this`idx, this`seek, this`history
      ensures Valid() && history == Undo(old(history))
      ensures seek == history.seeks[history.at - 1]
    {
      idx := idx - 1;
      seek := undos[idx - 1];
      history := Undo(history);
      assert undos[..lim][idx - 1] == seek;
    }

    /** `undo_redo`. */
    method RedoSeek()
      requires Valid()
      modifies this`idx, this`seek, this`history
      ensures Valid() && history == Redo(old(history))
      ensures old(idx) < old(lim) ==> seek == history.seeks[history.at - 1]
      ensures old(idx) == old(lim) ==> seek == old(seek) && history == old(history)
    {
      if idx < lim {
        idx := idx + 2;
        idx := idx - 1;
        seek := undos[idx - 1];
        history := Redo(history);
        assert undos[..lim][idx - 1] == seek;
      }
    }
  }
}
