/** The write-undo log of src/undo.c over the read and write primitives of src/rio.c. */
module WriteUndo {
  import opened Machine
  import opened UndoTheory

  class Editor {
    /** The bytes of the open file. */
    const file: array<Byte>
    /** `config.seek`. */
    var seek: nat
    /** `undo_w_list`, oldest entry first. */
    var log: seq<Entry>
    /** `undo_w_lock`. */
    var locked: bool
    /** The configuration variable `file.undowrite`. */
    var undoWrite: bool

    ghost predicate Ok()
      reads this, file
    {
      AllFit(log, file.Length) && !locked
    }

    /** The file and the log. */
    ghost function Model(): State
      reads this, file
    {
      State(file[..], log)
    }

    constructor (file: array<Byte>, undoWrite: bool)
      ensures this.file == file && this.undoWrite == undoWrite
      ensures Ok() && Model() == State(file[..], [])
    {
      this.file := file;
      this.undoWrite := undoWrite;
      seek, log, locked := 0, [], false;
    }

    /** `radare_read_at`: seek there, read, seek back. */
    method ReadAt(offset: nat, len: nat) returns (data: seq<Byte>)
      requires offset + len <= file.Length
      modifies this`seek
      ensures data == file[offset..offset + len] && seek == old(seek)
    {
      var cur := seek;
      seek := offset;
      data := [];
      while |data| < len
        invariant |data| <= len && data == file[offset..offset + |data|]
      {
        data := data + [file[seek + |data|]];
      }
      seek := cur;
    }

    /** `undo_write_new`: remember a write that is about to be done, unless logging is switched off
        or locked, or the same write is in the log already. */
    method LogNew(off: nat, data: seq<Byte>)
      requires off + |data| <= file.Length && AllFit(log, file.Length)
      modifies this`log, this`seek
      ensures log == if undoWrite && !locked then LogWrite(old(Model()), off, data) else old(log)
      ensures AllFit(log, file.Length) && seek == old(seek)
    {
      if !undoWrite {
        return;
      }
      if locked {
        return;
      }
      var i: nat := |log|;
      while i > 0
        invariant i <= |log|
        invariant forall j :: i <= j < |log| ==> !(log[j].off == off && log[j].n == data)
      {
        i := i - 1;
        var uw := log[i];
        if off == uw.off && |data| == |uw.n| && data == uw.n {
          return;
        }
      }
      var o := ReadAt(off, |data|);
      log := log + [Entry(off, o, data, true)];
    }

    /** `radare_write_at`, without write mask and outside any protected section: log the write, then
        put the bytes into the file, and leave the seek where it was. */
    method WriteAt(offset: nat, data: seq<Byte>)
      requires offset + |data| <= file.Length && AllFit(log, file.Length)
      modifies this`log, this`seek, file
      ensures file[..] == Patch(old(file[..]), offset, data)
      ensures undoWrite && !locked ==> Step(old(Model()), DoWrite(offset, data), Model())
      ensures log == if undoWrite && !locked then LogWrite(old(Model()), offset, data) else old(log)
      ensures AllFit(log, file.Length) && seek == old(seek)
    {
      var cur := seek;
      seek := offset;
      if undoWrite {
        LogNew(offset, data);
      }
      ghost var logged := log;
      var i := 0;
      while i < |data|
        invariant i <= |data| && log == logged && seek == offset
        invariant file[..] == Patch(old(file[..]), offset, data[..i])
      {
        file[seek + i] := data[i];
        i := i + 1;
      }
      assert data[..i] == data;
      seek := cur;
    }

    /** `undo_write_clear`. */
    method Clear()
      requires Ok()
      modifies this`log
      ensures Ok() && Model() == State(old(file[..]), [])
    {
      log := [];
    }

    /** `undo_write_set_t` for the entry at position i: with the log locked, write its new or its old
        bytes, and note which. */
    method SetOne(i: nat, redo: bool)
      requires Ok() && i < |log|
      modifies this`log, this`seek, this`locked, file
      ensures Ok() && Model() == SetEntry(old(Model()), i, redo) && seek == old(seek)
    {
      var u := log[i];
      locked := true;
      if redo {
        WriteAt(u.off, u.n);
      } else {
        WriteAt(u.off, u.o);
      }
      log := log[i := log[i].(isSet := redo)];
      locked := false;
    }

    /** `undo_write_set`. */
    method SetNth(n: int, redo: bool) returns (found: bool)
      requires Ok()
      modifies this`log, this`seek, this`locked, file
      ensures Ok() && Model() == Set(old(Model()), n, redo) && seek == old(seek)
      ensures Step(old(Model()), DoSet(n, redo), Model())
      ensures found <==> 0 <= n < |old(log)|
    {
      var p := |log|;
      var i := 0;
      found := false;
      while p > 0
        invariant p + i == |log| && 0 <= p && log == old(log)
        invariant 0 <= n ==> i <= n
        invariant Ok() && Model() == old(Model()) && seek == old(seek) && !found
        decreases p
      {
        p := p - 1;
        if i == n {
          SetOne(p, redo);
          found := true;
          return;
        }
        i := i + 1;
      }
    }

    /** `undo_write_set_all`: undo or redo every entry, newest first. */
    method SetEvery(redo: bool)
      requires Ok()
      modifies this`log, this`seek, this`locked, file
      ensures Ok() && Model() == SetAll(old(Model()), redo) && seek == old(seek)
      ensures Step(old(Model()), DoSetAll(redo), Model())
    {
      var p := |log|;
      SetDownFrom(Model(), redo);
      while p > 0
        invariant 0 <= p <= |log| && Ok() && seek == old(seek)
        invariant SetDownTo(old(Model()), p, redo, Model())
      {
        p := p - 1;
        SetDownStep(old(Model()), p, redo, Model());
        SetOne(p, redo);
      }
      SetDownAll(old(Model()), redo, Model());
    }
  }
}
