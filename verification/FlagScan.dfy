/** The search for the nearest flag in src/flags.c, and when the cache in front of it gives the
    same answers. */
module FlagScan {
  import opened Machine

  datatype Flag = Flag(name: string, offset: U64)

  /** The arguments of `flag_get_here_filter` and of `flag_get_here_filter2`. */
  datatype Filter = One(str: string) | Two(str: string, str2: string)

  /** `strstr` finds something. */
  predicate Contains(s: string, t: string) {
    t <= s || (s != "" && Contains(s[1..], t))
  }

  lemma {:induction false} ContainsFits(s: string, t: string)
    requires Contains(s, t)
    ensures |t| <= |s|
  {
    if !(t <= s) {
      ContainsFits(s[1..], t);
    }
  }

  ghost predicate Occurs(s: string, t: string, k: int) {
    0 <= k && k + |t| <= |s| && s[k..k + |t|] == t
  }

  lemma OccursFirst(s: string, t: string)
    ensures Occurs(s, t, 0) <==> t <= s
  {
    if |t| <= |s| {
      assert s[0..0 + |t|] == s[..|t|];
    }
  }

  lemma OccursLater(s: string, t: string, k: nat)
    requires s != ""
    ensures Occurs(s, t, k + 1) <==> Occurs(s[1..], t, k)
  {
    if k + 1 + |t| <= |s| {
      assert s[k + 1..k + 1 + |t|] == s[1..][k..k + |t|];
    }
  }

  /** Exactly when the text occurs somewhere. */
  lemma {:induction false} ContainsExactly(s: string, t: string)
    ensures Contains(s, t) <==> exists k :: Occurs(s, t, k)
  {
    OccursFirst(s, t);
    if s != "" {
      ContainsExactly(s[1..], t);
      if k :| Occurs(s[1..], t, k) {
        OccursLater(s, t, k);
      }
      if k :| Occurs(s, t, k) && k > 0 {
        OccursLater(s, t, k - 1);
      }
    }
  }

  predicate Matches(f: Flag, filter: Filter) {
    match filter
    case One(str) => (str == "" || Contains(f.name, str)) && !Contains(f.name, "end")
    case Two(str, str2) => (Contains(f.name, str) || Contains(f.name, str2)) && !Contains(f.name, "_end")
  }

  /** The text whose length is cut off the name. */
  function Cut(f: Flag, filter: Filter): string {
    match filter
    case One(str) => str
    case Two(str, str2) => if Contains(f.name, str) then str else str2
  }

  lemma CutFits(f: Flag, filter: Filter)
    requires Matches(f, filter)
    ensures |Cut(f, filter)| <= |f.name|
  {
    if Cut(f, filter) != "" {
      ContainsFits(f.name, Cut(f, filter));
    }
  }

  function Suffix(f: Flag, filter: Filter): string
    requires Matches(f, filter)
  {
    CutFits(f, filter);
    f.name[|Cut(f, filter)|..]
  }

  /** The section name behind a prefix: what is searched for is cut off, the second text only if the first one does
      not occur. */
  lemma SuffixIsRest(str: string, str2: string, rest: string, offset: U64)
    ensures var f := Flag(str + rest, offset);
            && (Matches(f, One(str)) ==> Suffix(f, One(str)) == rest)
            && (Matches(f, Two(str, str2)) ==> Suffix(f, Two(str, str2)) == rest)
    ensures var f := Flag(str2 + rest, offset);
            Matches(f, Two(str, str2)) && !Contains(f.name, str) ==> Suffix(f, Two(str, str2)) == rest
  {
    assert Contains(str + rest, str);
    assert (str + rest)[|str|..] == rest && (str2 + rest)[|str2|..] == rest;
  }

  /** Flags that mark an end are no sections: "end" anywhere in the name for one text, "_end" for two. */
  lemma EndsDoNotMatch(f: Flag, filter: Filter, k: int)
    requires Occurs(f.name, if filter.One? then "end" else "_end", k)
    ensures !Matches(f, filter)
  {
    ContainsExactly(f.name, if filter.One? then "end" else "_end");
  }

  // ----- the scan

  /** The position of the flag found, or -1, and the next offset. */
  datatype Found = Found(best: int, next: U64)

  /** The loop over the flags. */
  function Scan(flags: seq<Flag>, filter: Filter, at: U64): (r: Found)
    ensures -1 <= r.best < |flags|
    ensures r.best >= 0 ==> Matches(flags[r.best], filter)
  {
    if flags == [] then Found(-1, U64_MAX)
    else
      var n := |flags| - 1;
      var f, r := flags[n], Scan(flags[..n], filter, at);
      var ret := if r.best < 0 then 0 else flags[r.best].offset;
      if !Matches(f, filter) then r
      else if f.offset < r.next && f.offset > at then r.(next := f.offset)
      else if at >= f.offset && f.offset > ret then r.(best := n)
      else r
  }

  /** A matching flag at or below the address.  Flags at offset 0 are never found. */
  predicate Candidate(flags: seq<Flag>, filter: Filter, at: U64, k: int) {
    0 <= k < |flags| && Matches(flags[k], filter) && 0 < flags[k].offset <= at
  }

  /** The first of the highest candidates. */
  ghost predicate Nearest(flags: seq<Flag>, filter: Filter, at: U64, b: int) {
    && Candidate(flags, filter, at, b)
    && forall k :: Candidate(flags, filter, at, k) ==>
         flags[k].offset <= flags[b].offset && (k < b ==> flags[k].offset < flags[b].offset)
  }

  /** The lowest matching offset above the address, or U64_MAX. */
  ghost predicate NextOffset(flags: seq<Flag>, filter: Filter, at: U64, next: U64) {
    && (next == U64_MAX || next > at)
    && (forall k :: 0 <= k < |flags| && Matches(flags[k], filter) && flags[k].offset > at ==> next <= flags[k].offset)
    && (next < U64_MAX ==> exists k :: 0 <= k < |flags| && Matches(flags[k], filter) && flags[k].offset == next)
  }

  lemma {:induction false} ScanFindsBest(flags: seq<Flag>, filter: Filter, at: U64)
    ensures var b := Scan(flags, filter, at).best;
            if b < 0 then forall k :: !Candidate(flags, filter, at, k) else Nearest(flags, filter, at, b)
    ensures var next := Scan(flags, filter, at).next; next == U64_MAX || next > at
  {
    if flags != [] {
      var n := |flags| - 1;
      var init := flags[..n];
      ScanFindsBest(init, filter, at);
      assert forall k :: k < n ==> Candidate(init, filter, at, k) == Candidate(flags, filter, at, k);
    }
  }

  lemma {:induction false} ScanFindsNext(flags: seq<Flag>, filter: Filter, at: U64)
    ensures NextOffset(flags, filter, at, Scan(flags, filter, at).next)
  {
    if flags != [] {
      var n := |flags| - 1;
      var init := flags[..n];
      ScanFindsNext(init, filter, at);
      var next := Scan(init, filter, at).next;
      assert forall k :: 0 <= k < n ==> init[k] == flags[k];
      if next < U64_MAX {
        var k :| 0 <= k < n && Matches(init[k], filter) && init[k].offset == next;
        assert Matches(flags[k], filter) && flags[k].offset == next;
      }
    }
  }

  /** The scan finds the nearest flag and the next offset. */
  lemma ScanFinds(flags: seq<Flag>, filter: Filter, at: U64)
    ensures var r := Scan(flags, filter, at);
            && (if r.best < 0 then forall k :: !Candidate(flags, filter, at, k) else Nearest(flags, filter, at, r.best))
            && NextOffset(flags, filter, at, r.next)
  {
    ScanFindsBest(flags, filter, at);
    ScanFindsNext(flags, filter, at);
  }

  // ----- sections

  predicate Answerable(flags: seq<Flag>, filter: Filter, at: U64) {
    Scan(flags, filter, at).best >= 0
  }

  /** Where the section of an address starts. */
  function Low(flags: seq<Flag>, filter: Filter, at: U64): U64
    requires Answerable(flags, filter, at)
  {
    flags[Scan(flags, filter, at).best].offset
  }

  /** What a search without the cache returns. */
  function Name(flags: seq<Flag>, filter: Filter, at: U64): string {
    var b := Scan(flags, filter, at).best;
    if b < 0 then "" else Suffix(flags[b], filter)
  }

  /** Addresses whose sections start at the same offset have the same flag and the same next offset. */
  lemma SameSection(flags: seq<Flag>, filter: Filter, a: U64, b: U64)
    requires Answerable(flags, filter, a) && Answerable(flags, filter, b)
    requires Low(flags, filter, a) == Low(flags, filter, b)
    ensures Scan(flags, filter, a) == Scan(flags, filter, b)
    ensures a < U64_MAX ==> Low(flags, filter, a) <= a < Scan(flags, filter, b).next
  {
    var r, s := Scan(flags, filter, a), Scan(flags, filter, b);
    ScanFinds(flags, filter, a);
    ScanFinds(flags, filter, b);
    assert Candidate(flags, filter, b, r.best) && Candidate(flags, filter, a, s.best);
    if r.next < U64_MAX {
      var k :| 0 <= k < |flags| && Matches(flags[k], filter) && flags[k].offset == r.next;
      assert !Candidate(flags, filter, b, k);
    }
    if s.next < U64_MAX {
      var k :| 0 <= k < |flags| && Matches(flags[k], filter) && flags[k].offset == s.next;
      assert !Candidate(flags, filter, a, k);
    }
  }

  /** The section found for one address is the section of every address in it. */
  lemma SectionIsConstant(flags: seq<Flag>, filter: Filter, a: U64, b: U64)
    requires Answerable(flags, filter, a) && Low(flags, filter, a) <= b < Scan(flags, filter, a).next
    ensures Answerable(flags, filter, b) && Low(flags, filter, b) == Low(flags, filter, a)
  {
    var r, s := Scan(flags, filter, a), Scan(flags, filter, b);
    ScanFinds(flags, filter, a);
    ScanFinds(flags, filter, b);
    assert Candidate(flags, filter, b, r.best);
    assert Nearest(flags, filter, b, s.best) && flags[s.best].offset <= a;
    assert Candidate(flags, filter, a, s.best);
  }

  // ----- the cache

  datatype Cache = Cache(start: U64, end: U64, str: string)

  const EMPTY := Cache(0, 0, "")

  /** One call: the answer and the new cache.  A search that finds nothing clears the text and keeps
      the interval. */
  function Query(c: Cache, flags: seq<Flag>, filter: Filter, at: U64): (string, Cache) {
    if c.start <= at < c.end then (c.str, c)
    else
      var r := Scan(flags, filter, at);
      if r.best < 0 then ("", c.(str := ""))
      else
        var name := Suffix(flags[r.best], filter);
        (name, Cache(flags[r.best].offset, r.next, name))
  }

  /** The cache after a run of queries. */
  function CacheAfter(flags: seq<Flag>, filter: Filter, qs: seq<U64>): Cache {
    if qs == [] then EMPTY
    else Query(CacheAfter(flags, filter, qs[..|qs| - 1]), flags, filter, qs[|qs| - 1]).1
  }

  /** The answer to query j of a run. */
  function Answer(flags: seq<Flag>, filter: Filter, qs: seq<U64>, j: nat): string
    requires j < |qs|
  {
    Query(CacheAfter(flags, filter, qs[..j]), flags, filter, qs[j]).0
  }

  /** The queries m of the run, from k on, either find nothing or ask for the section of `at` below the
      last address. */
  ghost predicate Stays(flags: seq<Flag>, filter: Filter, qs: seq<U64>, k: nat, at: U64)
    requires Answerable(flags, filter, at)
  {
    forall m :: k <= m < |qs| && Answerable(flags, filter, qs[m]) ==>
      qs[m] < U64_MAX && Low(flags, filter, qs[m]) == Low(flags, filter, at)
  }

  /** Before `at` the run has asked for its section, and then for an address without a flag, and
      for no other section since. */
  ghost predicate Spoiled(flags: seq<Flag>, filter: Filter, qs: seq<U64>, at: U64) {
    && at < U64_MAX && Answerable(flags, filter, at)
    && exists k, i :: 0 <= k < i < |qs| && SpoiledBy(flags, filter, qs, at, k, i)
  }

  ghost predicate SpoiledBy(flags: seq<Flag>, filter: Filter, qs: seq<U64>, at: U64, k: nat, i: nat)
    requires k < i < |qs| && Answerable(flags, filter, at)
  {
    && Answerable(flags, filter, qs[k]) && Low(flags, filter, qs[k]) == Low(flags, filter, at)
    && !Answerable(flags, filter, qs[i])
    && Stays(flags, filter, qs, k + 1, at)
  }

  /** The last query of the run that was answered, or -1. */
  function Last(flags: seq<Flag>, filter: Filter, qs: seq<U64>): (k: int)
    ensures -1 <= k < |qs|
    ensures k >= 0 ==> Answerable(flags, filter, qs[k])
    ensures forall m :: k < m < |qs| ==> !Answerable(flags, filter, qs[m])
  {
    if qs == [] || Answerable(flags, filter, qs[|qs| - 1]) then |qs| - 1
    else Last(flags, filter, qs[..|qs| - 1])
  }

  /** What the cache holds after a run: the section that was answered last, with its name unless that is
      spoiled. */
  ghost predicate Holds(flags: seq<Flag>, filter: Filter, qs: seq<U64>, c: Cache) {
    var k := Last(flags, filter, qs);
    if k < 0 then c == EMPTY
    else
      && c.start == Low(flags, filter, qs[k]) && c.end == Scan(flags, filter, qs[k]).next
      && forall a: U64 :: c.start <= a < c.end ==>
           c.str == if Spoiled(flags, filter, qs, a) then "" else Name(flags, filter, a)
  }

  /** Spoiled for one address is spoiled for its section. */
  lemma SpoiledSection(flags: seq<Flag>, filter: Filter, qs: seq<U64>, a: U64, b: U64)
    requires Answerable(flags, filter, a) && Answerable(flags, filter, b) && a < U64_MAX && b < U64_MAX
    requires Low(flags, filter, a) == Low(flags, filter, b) && Spoiled(flags, filter, qs, a)
    ensures Spoiled(flags, filter, qs, b)
  {
    var k, i :| 0 <= k < i < |qs| && SpoiledBy(flags, filter, qs, a, k, i);
    assert SpoiledBy(flags, filter, qs, b, k, i);
  }

  /** Another query of the section changes nothing, except at the last address. */
  lemma SpoiledStep(flags: seq<Flag>, filter: Filter, qs: seq<U64>, q: U64, a: U64)
    requires Answerable(flags, filter, q) && Answerable(flags, filter, a) && a < U64_MAX
    requires Low(flags, filter, q) == Low(flags, filter, a)
    ensures Spoiled(flags, filter, qs + [q], a) <==> q < U64_MAX && Spoiled(flags, filter, qs, q)
  {
    var now := qs + [q];
    if Spoiled(flags, filter, now, a) {
      var k, i :| 0 <= k < i < |now| && SpoiledBy(flags, filter, now, a, k, i);
      assert now[|qs|] == q;
      assert forall m :: 0 <= m < |qs| ==> qs[m] == now[m];
      assert SpoiledBy(flags, filter, qs, q, k, i);
    }
    if q < U64_MAX && Spoiled(flags, filter, qs, q) {
      var k, i :| 0 <= k < i < |qs| && SpoiledBy(flags, filter, qs, q, k, i);
      assert now[..|qs|] == qs;
      assert SpoiledBy(flags, filter, now, a, k, i);
    }
  }

  /** An address with a flag that is not in the cached interval is not spoiled. */
  lemma MissIsFresh(flags: seq<Flag>, filter: Filter, qs: seq<U64>, c: Cache, q: U64)
    requires Holds(flags, filter, qs, c) && Answerable(flags, filter, q) && !(c.start <= q < c.end)
    ensures !Spoiled(flags, filter, qs, q)
  {
    if Spoiled(flags, filter, qs, q) {
      var k, i :| 0 <= k < i < |qs| && SpoiledBy(flags, filter, qs, q, k, i);
      var last := Last(flags, filter, qs);
      assert Low(flags, filter, qs[last]) == Low(flags, filter, q);
      SameSection(flags, filter, q, qs[last]);
    }
  }

  /** Query keeps the description of the cache. */
  lemma QueryHolds(flags: seq<Flag>, filter: Filter, qs: seq<U64>, c: Cache, q: U64)
    requires Holds(flags, filter, qs, c)
    ensures Holds(flags, filter, qs + [q], Query(c, flags, filter, q).1)
  {
    var now, d := qs + [q], Query(c, flags, filter, q).1;
    var last := Last(flags, filter, qs);
    assert now[..|qs|] == qs;
    if !Answerable(flags, filter, q) {
      if last >= 0 {
        if c.start <= q < c.end {
          SectionIsConstant(flags, filter, qs[last], q);
        }
        forall a: U64 | c.start <= a < c.end
          ensures Spoiled(flags, filter, now, a)
        {
          SectionIsConstant(flags, filter, qs[last], a);
          assert SpoiledBy(flags, filter, now, a, last, |qs|);
        }
      }
    } else {
      if c.start <= q < c.end {
        SectionIsConstant(flags, filter, qs[last], q);
        SameSection(flags, filter, qs[last], q);
      } else {
        MissIsFresh(flags, filter, qs, c, q);
      }
      forall a: U64 | d.start <= a < d.end
        ensures d.str == if Spoiled(flags, filter, now, a) then "" else Name(flags, filter, a)
      {
        SectionIsConstant(flags, filter, q, a);
        SameSection(flags, filter, q, a);
        SpoiledStep(flags, filter, qs, q, a);
        if c.start <= q < c.end && Spoiled(flags, filter, qs, a) {
          SpoiledSection(flags, filter, qs, a, q);
        }
      }
    }
  }

  lemma {:induction false} AfterHolds(flags: seq<Flag>, filter: Filter, qs: seq<U64>)
    ensures Holds(flags, filter, qs, CacheAfter(flags, filter, qs))
  {
    if qs != [] {
      var init, q := qs[..|qs| - 1], qs[|qs| - 1];
      AfterHolds(flags, filter, init);
      QueryHolds(flags, filter, init, CacheAfter(flags, filter, init), q);
      assert init + [q] == qs;
    }
  }

  /** Over every run of queries, every answer is what a search without the cache returns, except that it
      is empty once the section of the address is spoiled. */
  lemma AnswerIs(flags: seq<Flag>, filter: Filter, qs: seq<U64>, j: nat)
    requires j < |qs|
    ensures Answer(flags, filter, qs, j)
         == if Spoiled(flags, filter, qs[..j], qs[j]) then "" else Name(flags, filter, qs[j])
  {
    var c := CacheAfter(flags, filter, qs[..j]);
    AfterHolds(flags, filter, qs[..j]);
    if !(c.start <= qs[j] < c.end) && Answerable(flags, filter, qs[j]) {
      MissIsFresh(flags, filter, qs[..j], c, qs[j]);
    }
  }

  /** So the cached search agrees with the plain one exactly on these runs. */
  lemma CacheExactly(flags: seq<Flag>, filter: Filter, qs: seq<U64>)
    ensures (forall j :: 0 <= j < |qs| ==> Answer(flags, filter, qs, j) == Name(flags, filter, qs[j]))
       <==> (forall j :: 0 <= j < |qs| && Spoiled(flags, filter, qs[..j], qs[j]) ==> Name(flags, filter, qs[j]) == "")
  {
    forall j | 0 <= j < |qs|
      ensures Answer(flags, filter, qs, j) == Name(flags, filter, qs[j])
         <==> (Spoiled(flags, filter, qs[..j], qs[j]) ==> Name(flags, filter, qs[j]) == "")
    {
      AnswerIs(flags, filter, qs, j);
    }
  }

  /** In particular when every query has a flag at or below it. */
  lemma CacheAgrees(flags: seq<Flag>, filter: Filter, qs: seq<U64>)
    requires forall j :: 0 <= j < |qs| ==> Answerable(flags, filter, qs[j])
    ensures forall j :: 0 <= j < |qs| ==> Answer(flags, filter, qs, j) == Name(flags, filter, qs[j])
  {
    forall j | 0 <= j < |qs|
      ensures !Spoiled(flags, filter, qs[..j], qs[j])
    {
      assert forall i :: 0 <= i < j ==> Answerable(flags, filter, qs[..j][i]);
    }
    CacheExactly(flags, filter, qs);
  }

  /** One query below all flags, and the cached section has lost its name. */
  lemma CacheSpoils()
    ensures var flags, filter, qs := [Flag("a", 16)], One(""), [20, 4, 20];
            Name(flags, filter, 20) == "a" && Answer(flags, filter, qs, 0) == "a" && Answer(flags, filter, qs, 2) == ""
  {
    var f, filter, qs := Flag("a", 16), One(""), [20, 4, 20];
    var flags := [f];
    assert Matches(f, filter) by {
      assert f.name[1..] == "" && !Contains("", "end");
    }
    assert flags[..0] == [];
    assert Scan(flags, filter, 20) == Found(0, U64_MAX) && Scan(flags, filter, 4) == Found(-1, 16);
    assert qs[..0] == [] && qs[..2][..1] == qs[..1] && qs[..1][..0] == [];
    assert CacheAfter(flags, filter, qs[..1]) == Cache(16, U64_MAX, "a");
    assert CacheAfter(flags, filter, qs[..2]) == Cache(16, U64_MAX, "");
  }
}
