/** The list of flags of src/flags.c and the cached search for the flag above an address. */
module FlagLookup {
  import opened Machine
  import opened Lists
  import opened ListSort
  import opened FlagScan

  /** The static variables of `flag_get_here_filter`, or those of `flag_get_here_filter2`, next to the
      global list of flags. */
  class Lookup {
    const flags: ListHead<Flag>
    ghost var ring: seq<ListHead<Flag>>
    var start: U64
    var end: U64
    var str: string

    ghost predicate Valid()
      reads this, ring
    {
      Ring(ring) && ring[0] == flags
    }

    ghost function Model(): seq<Flag>
      requires Valid()
      reads this, ring
    {
      Entries(ring)
    }

    ghost function Cached(): Cache
      reads this
    {
      Cache(start, end, str)
    }

    constructor (flags: ListHead<Flag>, ghost ring: seq<ListHead<Flag>>)
      requires Ring(ring) && ring[0] == flags
      ensures this.flags == flags && this.ring == ring && Valid() && Cached() == EMPTY
    {
      this.flags := flags;
      this.ring := ring;
      start, end, str := 0, 0, "";
    }

    /** What the variables of the loop say about the flags seen so far. */
    ghost predicate Located(r: Found, filter: Filter, f: ListHead?<Flag>, s: string, nextflag: U64)
      requires Valid()
      reads this, ring
    {
      && nextflag == r.next && r.best < |Model()|
      && if r.best < 0 then f == null else f == ring[r.best + 1] && s == Cut(Model()[r.best], filter)
    }

    ghost predicate Tracks(r: Found, filter: Filter, f: ListHead?<Flag>, s: string, ret: U64, nextflag: U64)
      requires Valid()
      reads this, ring
    {
      Located(r, filter, f, s, nextflag) && ret == if r.best < 0 then 0 else Model()[r.best].offset
    }

    /** The loop body for the flag at position k. */
    method Consider(pos: ListHead<Flag>, filter: Filter, at: U64, f0: ListHead?<Flag>, s0: string, ret0: U64,
                    nextflag0: U64, ghost k: nat, ghost r: Found)
      returns (f: ListHead?<Flag>, s: string, ret: U64, nextflag: U64, ghost next: Found)
      requires Valid() && k < |Model()| && pos == ring[k + 1]
      requires r == Scan(Model()[..k], filter, at) && Tracks(r, filter, f0, s0, ret0, nextflag0)
      ensures next == Scan(Model()[..k + 1], filter, at) && Tracks(next, filter, f, s, ret, nextflag)
    {
      f, s, ret, nextflag := f0, s0, ret0, nextflag0;
      var flag := pos.entry;
      next := ScanSnoc(Model(), filter, at, k, r);
      if Matches(flag, filter) {
        if flag.offset < nextflag && flag.offset > at {
          nextflag := flag.offset;
        } else if at >= flag.offset && flag.offset > ret {
          s := Cut(flag, filter);
          f := pos;
          ret := flag.offset;
        }
      }
    }

    /** The loop over the flags: the flag found, the text to cut off its name and the next offset. */
    method Search(filter: Filter, at: U64) returns (f: ListHead?<Flag>, s: string, nextflag: U64)
      requires Valid()
      ensures Located(Scan(Model(), filter, at), filter, f, s, nextflag)
    {
      ghost var es := Model();
      var ret: U64 := 0;
      f, s, nextflag := null, "", U64_MAX;
      var pos := flags.next;
      ghost var k, r := 0, Found(-1, U64_MAX);
      assert pos == After(ring, 0);
      while pos != flags
        invariant k <= |es| && pos == At(ring, k + 1)
        invariant r == Scan(es[..k], filter, at) && Tracks(r, filter, f, s, ret, nextflag)
        decreases |es| - k
      {
        NextInRing(ring, k + 1);
        f, s, ret, nextflag, r := Consider(pos, filter, at, f, s, ret, nextflag, k, r);
        pos := pos.next;
        k := k + 1;
      }
      assert k == |es| && es[..k] == es;
    }

    /** `flag_get_here_filter` and `flag_get_here_filter2`. */
    method Here(filter: Filter, at: U64) returns (name: string)
      requires Valid()
      modifies this`start, this`end, this`str
      ensures Valid() && (name, Cached()) == Query(old(Cached()), Model(), filter, at)
    {
      if at >= start && at < end {
        return str;
      }
      str := "";
      var f, s, nextflag := Search(filter, at);
      if f == null {
        return "";
      }
      name := Keep(f, s, nextflag, filter, at);
    }

    /** Fill the cache with what the search found. */
    method Keep(f: ListHead<Flag>, s: string, nextflag: U64, filter: Filter, at: U64) returns (name: string)
      requires Valid()
      requires Located(Scan(Model(), filter, at), filter, f, s, nextflag)
      modifies this`start, this`end, this`str
      ensures var r := Scan(Model(), filter, at);
              && r.best >= 0 && f.entry == Model()[r.best]
              && name == Suffix(f.entry, filter) && Cached() == Cache(f.entry.offset, r.next, name)
    {
      var flag := f.entry;
      assert flag == Model()[Scan(Model(), filter, at).best];
      CutFits(flag, filter);
      name := flag.name[|s|..];
      start, end, str := flag.offset, nextflag, name;
    }
  }

  /** The loop goes on to the next node, or back to the head. */
  lemma NextInRing(ring: seq<ListHead<Flag>>, k: nat)
    requires Ring(ring) && k < |ring|
    ensures ring[k].next == At(ring, k + 1)
  {
  }

  lemma ScanSnoc(es: seq<Flag>, filter: Filter, at: U64, k: nat, r: Found) returns (next: Found)
    requires k < |es| && r == Scan(es[..k], filter, at)
    ensures next == Scan(es[..k + 1], filter, at)
    ensures var f, ret := es[k], if r.best < 0 then 0 else es[r.best].offset;
            next == if !Matches(f, filter) then r
                    else if f.offset < r.next && f.offset > at then r.(next := f.offset)
                    else if at >= f.offset && f.offset > ret then r.(best := k)
                    else r
  {
    next := Scan(es[..k + 1], filter, at);
    assert es[..k + 1][..k] == es[..k];
  }
}
