/** Paging backward through the program's signature index (tools/verify-journal/src/chain.ts). */
module ChainIndex {
  import opened Common
  import opened Ordering

  /** An entry of the program's index: a transaction and its slot. */
  datatype Mention = Mention(signature: string, slot: nat)

  const PAGE := 1000

  /** The entry at `j` is an older transaction than the one at `i`, or another of its slot. */
  predicate NotNewer(index: seq<Mention>, i: nat, j: nat)
    requires i < |index| && j < |index|
  {
    index[j].slot <= index[i].slot && index[i].signature != index[j].signature
  }

  /** Newest first, each transaction once. */
  ghost predicate Indexed(index: seq<Mention>) {
    forall i: nat, j: nat :: i < j < |index| ==> NotNewer(index, i, j)
  }

  ghost predicate DistinctSignatures(s: seq<Mention>) {
    forall i, j :: 0 <= i < j < |s| ==> s[i].signature != s[j].signature
  }

  /** `b` is `a` with newer transactions in front. */
  ghost predicate Extends(a: seq<Mention>, b: seq<Mention>) {
    |a| <= |b| && forall i :: 0 <= i < |a| ==> a[i] == b[i + (|b| - |a|)]
  }

  ghost predicate ExtendsAfter(at: nat -> seq<Mention>, k: nat) { Indexed(at(k)) && Extends(at(k), at(k + 1)) }

  /** The index as each request sees it; it may grow at its newest end in between. */
  ghost predicate IndexHistory(at: nat -> seq<Mention>) { forall k: nat :: ExtendsAfter(at, k) }

  lemma ExtendsTransitive(a: seq<Mention>, b: seq<Mention>, c: seq<Mention>)
    requires Extends(a, b) && Extends(b, c)
    ensures Extends(a, c)
  {
    forall i | 0 <= i < |a| ensures a[i] == c[i + (|c| - |a|)] {
      var j := i + (|b| - |a|);
      assert a[i] == b[j] && b[j] == c[j + (|c| - |b|)];
    }
  }

  lemma {:induction false} IndexGrows(at: nat -> seq<Mention>, k: nat)
    requires IndexHistory(at)
    ensures Indexed(at(0)) && Indexed(at(k)) && Extends(at(0), at(k))
  {
    assert ExtendsAfter(at, k);
    if k > 0 {
      IndexGrows(at, k - 1);
      assert ExtendsAfter(at, k - 1);
      ExtendsTransitive(at(0), at(k - 1), at(k));
    }
  }

  /** Where a signature stands in the index; at its end when it is not there. */
  function PositionOf(index: seq<Mention>, signature: string): (r: nat)
    ensures r <= |index|
    ensures r < |index| ==> index[r].signature == signature
    ensures forall i :: 0 <= i < r ==> index[i].signature != signature
  {
    if index == [] then 0
    else if index[0].signature == signature then 0
    else 1 + PositionOf(index[1..], signature)
  }

  datatype Before = Newest | Older(signature: string)

  function StartAfter(index: seq<Mention>, before: Before): nat {
    if before.Newest? then 0 else PositionOf(index, before.signature) + 1
  }

  /** The node's answer: up to `limit` entries older than `before`, newest first. */
  function SignaturesBefore(index: seq<Mention>, before: Before, limit: nat): seq<Mention> {
    var start := StartAfter(index, before);
    First(if start >= |index| then [] else index[start..], limit)
  }

  function SlotsWithin(fromSlot: nat, toSlot: nat): Mention -> bool {
    (m: Mention) => fromSlot <= m.slot <= toSlot
  }

  function BeforeAt(index: seq<Mention>, n: nat): Before
    requires n <= |index|
  {
    if n == 0 then Newest else Older(index[n - 1].signature)
  }

  lemma StartIsShifted(first: seq<Mention>, now: seq<Mention>, n: nat)
    requires Indexed(now) && Extends(first, now) && n <= |first| && (n > 0 || now == first)
    ensures var start := StartAfter(now, BeforeAt(first, n));
            start == |now| - |first| + n && now[start..] == first[n..]
  {
    var shift := |now| - |first|;
    if n > 0 {
      var last := n - 1 + shift;
      assert now[last] == first[n - 1];
      var found := PositionOf(now, first[n - 1].signature);
      if found < last { assert NotNewer(now, found, last); }
    }
    var start := StartAfter(now, BeforeAt(first, n));
    assert start == shift + n;
    forall i | 0 <= i < |first| - n ensures now[start..][i] == first[n..][i] {
      assert first[n + i] == now[n + i + shift];
    }
  }

  lemma Continues(first: seq<Mention>, now: seq<Mention>, n: nat, limit: nat, page: seq<Mention>, next: nat)
    requires Indexed(now) && Extends(first, now) && n <= |first| && (n > 0 || now == first)
    requires page == SignaturesBefore(now, BeforeAt(first, n), limit) && next == n + |page|
    ensures next <= |first| && page == first[n..next]
    ensures |page| < limit ==> next == |first|
  {
    StartIsShifted(first, now, n);
    assert page == First(first[n..], limit);
  }

  /** However the index grew meanwhile, the next page goes on where the last one ended in the index as it was at first. */
  lemma NextPage(at: nat -> seq<Mention>, k: nat, n: nat, page: seq<Mention>, next: nat, limit: nat)
    requires IndexHistory(at) && n <= |at(0)| && (n > 0 || k == 0)
    requires page == SignaturesBefore(at(k), BeforeAt(at(0), n), limit) && next == n + |page|
    ensures next <= |at(0)| && page == at(0)[n..next]
    ensures |page| < limit ==> next == |at(0)|
  {
    IndexGrows(at, k);
    Continues(at(0), at(k), n, limit, page, next);
  }

  lemma {:induction false} NothingOlder(rest: seq<Mention>, fromSlot: nat, toSlot: nat)
    requires forall m :: m in rest ==> m.slot < fromSlot
    ensures Filter(rest, SlotsWithin(fromSlot, toSlot)) == []
  {
    if rest != [] {
      assert rest[0] in rest;
      NothingOlder(rest[1..], fromSlot, toSlot);
    }
  }

  lemma FoundGrows(index: seq<Mention>, n: nat, next: nat, page: seq<Mention>, p: Mention -> bool)
    requires n <= next <= |index| && page == index[n..next]
    ensures Filter(index[..n], p) + Filter(page, p) == Filter(index[..next], p)
  {
    assert index[..next] == index[..n] + page;
    FilterConcat(index[..n], page, p);
  }

  /** The index has been walked over its first `n` entries. */
  ghost predicate Scanned(index: seq<Mention>, p: Mention -> bool, n: nat, found: seq<Mention>, before: Before) {
    n <= |index| && found == Filter(index[..n], p) && before == BeforeAt(index, n)
  }

  /** The walk ends with an empty or short page, or once the window's start is behind it. */
  predicate IsLastPage(page: seq<Mention>, fromSlot: nat, limit: nat) {
    page == [] || |page| < limit || page[|page| - 1].slot < fromSlot
  }

  lemma LastOfPage(index: seq<Mention>, n: nat, next: nat, page: seq<Mention>)
    requires n <= next <= |index| && page == index[n..next]
    ensures page != [] ==> page[|page| - 1] == index[next - 1] && BeforeAt(index, next) == Older(page[|page| - 1].signature)
    ensures page == [] <==> next == n
  {
  }

  lemma ScanPage(index: seq<Mention>, fromSlot: nat, toSlot: nat, n: nat, found: seq<Mention>, before: Before,
                 limit: nat, page: seq<Mention>, next: nat)
    requires Indexed(index) && limit >= 1 && Scanned(index, SlotsWithin(fromSlot, toSlot), n, found, before)
    requires next == n + |page| <= |index| && page == index[n..next] && (|page| < limit ==> next == |index|)
    ensures
      var p := SlotsWithin(fromSlot, toSlot);
      if IsLastPage(page, fromSlot, limit) then found + Filter(page, p) == Filter(index, p)
      else n < next && Scanned(index, p, next, found + Filter(page, p), Older(page[|page| - 1].signature))
  {
    FoundGrows(index, n, next, page, SlotsWithin(fromSlot, toSlot));
    LastOfPage(index, n, next, page);
    if IsLastPage(page, fromSlot, limit) { RestIsOlder(index, next, fromSlot, toSlot); }
  }

  lemma ScanStep(at: nat -> seq<Mention>, turn: nat, index: seq<Mention>, fromSlot: nat, toSlot: nat, n: nat,
                 found: seq<Mention>, before: Before, limit: nat, page: seq<Mention>, next: nat)
    requires IndexHistory(at) && index == at(0) && limit >= 1 && (n > 0 || turn == 0)
    requires Scanned(index, SlotsWithin(fromSlot, toSlot), n, found, before)
    requires page == SignaturesBefore(at(turn), before, limit) && next == n + |page|
    ensures
      var p := SlotsWithin(fromSlot, toSlot);
      if IsLastPage(page, fromSlot, limit) then found + Filter(page, p) == Filter(index, p)
      else n < next && Scanned(index, p, next, found + Filter(page, p), Older(page[|page| - 1].signature))
  {
    IndexGrows(at, 0);
    NextPage(at, turn, n, page, next, limit);
    ScanPage(index, fromSlot, toSlot, n, found, before, limit, page, next);
  }

  /** Adds the entries of a page that fall in the window to those found earlier. */
  method Collect(page: seq<Mention>, fromSlot: nat, toSlot: nat, earlier: seq<Mention>) returns (found: seq<Mention>)
    ensures found == earlier + Filter(page, SlotsWithin(fromSlot, toSlot))
  {
    found := earlier;
    ghost var p := SlotsWithin(fromSlot, toSlot);
    for i := 0 to |page|
      invariant found == earlier + Filter(page[..i], p)
    {
      FilterNext(page, i, i + 1, p);
      if fromSlot <= page[i].slot <= toSlot { found := found + [page[i]]; }
    }
    assert page[..|page|] == page;
  }

  /**
   * Every transaction of the window in the index as the first request saw it, newest first, each
   * once, for any page limit of at least one; nothing that arrived later.
   */
  method Mentions(at: nat -> seq<Mention>, fromSlot: nat, toSlot: nat, limit: nat) returns (found: seq<Mention>)
    requires IndexHistory(at) && limit >= 1
    ensures found == Filter(at(0), SlotsWithin(fromSlot, toSlot))
    ensures DistinctSignatures(found)
  {
    found := [];
    var before, turn := Newest, 0;
    ghost var n := 0;
    IndexGrows(at, 0);
    FilterDistinct(at(0), SlotsWithin(fromSlot, toSlot));
    while true
      invariant Scanned(at(0), SlotsWithin(fromSlot, toSlot), n, found, before) && (n > 0 || turn == 0)
      decreases |at(0)| - n
    {
      var page := SignaturesBefore(at(turn), before, limit);
      ghost var next := n + |page|;
      ScanStep(at, turn, at(0), fromSlot, toSlot, n, found, before, limit, page, next);
      found := Collect(page, fromSlot, toSlot, found);
      if IsLastPage(page, fromSlot, limit) { return; }
      n, before, turn := next, Older(page[|page| - 1].signature), turn + 1;
    }
  }

  lemma RestIsOlder(index: seq<Mention>, n: nat, fromSlot: nat, toSlot: nat)
    requires Indexed(index) && n <= |index| && (n == |index| || (n > 0 && index[n - 1].slot < fromSlot))
    ensures Filter(index[..n], SlotsWithin(fromSlot, toSlot)) == Filter(index, SlotsWithin(fromSlot, toSlot))
  {
    var p := SlotsWithin(fromSlot, toSlot);
    assert index == index[..n] + index[n..];
    FilterConcat(index[..n], index[n..], p);
    forall m | m in index[n..] ensures m.slot < fromSlot {
      var j :| n <= j < |index| && index[j] == m;
      assert NotNewer(index, n - 1, j);
    }
    NothingOlder(index[n..], fromSlot, toSlot);
  }

  lemma {:induction false} FilterDistinct(index: seq<Mention>, p: Mention -> bool)
    requires Indexed(index)
    ensures DistinctSignatures(Filter(index, p))
  {
    if index != [] {
      forall i: nat, j: nat | i < j < |index[1..]| ensures NotNewer(index[1..], i, j) {
        assert NotNewer(index, i + 1, j + 1);
      }
      FilterDistinct(index[1..], p);
      var rest := Filter(index[1..], p);
      forall m | m in rest ensures m.signature != index[0].signature {
        var j :| 0 <= j < |index[1..]| && index[1..][j] == m;
        assert NotNewer(index, 0, j + 1);
      }
      var first := if p(index[0]) then [index[0]] else [];
      assert Filter(index, p) == first + rest;
      DistinctAfter(first, rest);
    }
  }

  lemma DistinctAfter(first: seq<Mention>, rest: seq<Mention>)
    requires |first| <= 1 && DistinctSignatures(rest)
    requires forall m :: m in rest && first != [] ==> m.signature != first[0].signature
    ensures DistinctSignatures(first + rest)
  {
    var r := first + rest;
    forall i, j | 0 <= i < j < |r| ensures r[i].signature != r[j].signature {
      assert r[j] == rest[j - |first|] && rest[j - |first|] in rest;
      if i >= |first| { assert r[i] == rest[i - |first|]; }
    }
  }
}
