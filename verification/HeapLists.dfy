/** The free bins as the heap keeps them: a head pointer per bin and links in the block headers. */
module HeapLists {
  import opened HeapBins

  datatype Links = Links(prev: nat, next: nat)

  /** Element `i` of a list, 0 beyond its ends. */
  function Nth(list: seq<nat>, i: int): nat {
    if 0 <= i < |list| then list[i] else 0
  }

  ghost predicate LinkedAt(links: map<nat, Links>, list: seq<nat>, i: nat)
    requires i < |list|
  {
    list[i] != 0 && list[i] in links && links[list[i]] == Links(Nth(list, i - 1), Nth(list, i + 1))
  }

  /** The links from `head` on spell out `list`. */
  ghost predicate ListOk(head: nat, links: map<nat, Links>, list: seq<nat>) {
    head == Nth(list, 0) && Distinct(list) && forall i :: 0 <= i < |list| ==> LinkedAt(links, list, i)
  }

  ghost predicate ListsOk(heads: seq<nat>, links: map<nat, Links>, lists: seq<seq<nat>>) {
    && |heads| == |lists|
    && (forall b :: 0 <= b < |lists| ==> ListOk(heads[b], links, lists[b]))
    && (forall b, c, x :: 0 <= b < |lists| && 0 <= c < |lists| && x in lists[b] && x in lists[c] ==> b == c)
  }

  /** A list whose blocks' links did not change. */
  lemma SameLinks(head: nat, links: map<nat, Links>, links': map<nat, Links>, list: seq<nat>)
    requires ListOk(head, links, list) && forall x :: x in list ==> x in links' && x in links && links'[x] == links[x]
    ensures ListOk(head, links', list)
  {
    forall i | 0 <= i < |list| ensures LinkedAt(links', list, i) { assert LinkedAt(links, list, i); }
  }

  /** The links of block `a`, if it is one, with a new predecessor or successor. */
  function SetPrevLink(links: map<nat, Links>, a: nat, p: nat): map<nat, Links> {
    if a in links && a != 0 then links[a := links[a].(prev := p)] else links
  }

  function SetNextLink(links: map<nat, Links>, a: nat, n: nat): map<nat, Links> {
    if a in links && a != 0 then links[a := links[a].(next := n)] else links
  }

  lemma Pushed(head: nat, links: map<nat, Links>, list: seq<nat>, a: nat, links': map<nat, Links>)
    requires ListOk(head, links, list) && a != 0 && a !in list
    requires links' == SetPrevLink(links[a := Links(0, head)], head, a)
    ensures ListOk(a, links', [a] + list)
  {
    var after := [a] + list;
    forall i | 0 <= i < |after| ensures LinkedAt(links', after, i) {
      if i > 0 { assert LinkedAt(links, list, i - 1); }
      if list != [] { assert LinkedAt(links, list, 0); }
    }
  }

  lemma {:induction false} WithoutAt(s: seq<nat>, k: nat)
    requires Distinct(s) && k < |s|
    ensures Without(s, s[k]) == s[..k] + s[k + 1..]
  {
    if k > 0 {
      var t := s[1..];
      assert t[k - 1] == s[k] && s[0] != s[k];
      WithoutAt(t, k - 1);
      assert [s[0]] + (t[..k - 1] + t[k..]) == s[..k] + s[k + 1..];
    }
  }

  /** Taking out element `k`: its neighbours are linked to each other. */
  lemma Removed(head: nat, links: map<nat, Links>, list: seq<nat>, k: nat, links': map<nat, Links>)
    requires ListOk(head, links, list) && k < |list|
    requires var p, n := Nth(list, k - 1), Nth(list, k + 1);
             links' == SetPrevLink(SetNextLink(links, p, n), n, p)[list[k] := Links(0, 0)]
    ensures ListOk(if Nth(list, k - 1) != 0 then head else Nth(list, k + 1), links', list[..k] + list[k + 1..])
  {
    var after := list[..k] + list[k + 1..];
    if k > 0 { assert LinkedAt(links, list, k - 1); }
    forall i | 0 <= i < |after| ensures LinkedAt(links', after, i) {
      var j := if i < k then i else i + 1;
      assert after[i] == list[j] && LinkedAt(links, list, j) && LinkedAt(links, list, k);
    }
  }

  /** The other lists keep their links. */
  lemma Others(heads: seq<nat>, links: map<nat, Links>, lists: seq<seq<nat>>, a: nat, b: nat,
               heads': seq<nat>, links': map<nat, Links>, lists': seq<seq<nat>>)
    requires ListsOk(heads, links, lists) && b < |lists| && |heads'| == |heads| && heads' == heads[b := heads'[b]]
    requires |lists'| == |lists| && lists' == lists[b := lists'[b]] && ListOk(heads'[b], links', lists'[b])
    requires forall x :: x in lists'[b] ==> x == a || x in lists[b]
    requires forall c :: 0 <= c < |lists| && c != b ==> a !in lists[c]
    requires forall x :: x in links && x != a && x !in lists[b] ==> x in links' && links'[x] == links[x]
    ensures ListsOk(heads', links', lists')
  {
    forall c | 0 <= c < |lists'| ensures ListOk(heads'[c], links', lists'[c]) {
      if c != b {
        assert ListOk(heads[c], links, lists[c]);
        forall x | x in lists[c] ensures x in links' && x in links && links'[x] == links[x] {
          var i :| 0 <= i < |lists[c]| && lists[c][i] == x;
          assert LinkedAt(links, lists[c], i);
        }
        SameLinks(heads[c], links, links', lists[c]);
      }
    }
  }

  /** Where a block stands in its list. */
  lemma At(heads: seq<nat>, links: map<nat, Links>, lists: seq<seq<nat>>, a: nat, b: nat) returns (k: nat)
    requires ListsOk(heads, links, lists) && b < |lists| && a in lists[b]
    ensures k < |lists[b]| && lists[b][k] == a && a in links
    ensures links[a] == Links(Nth(lists[b], k - 1), Nth(lists[b], k + 1))
  {
    k :| 0 <= k < |lists[b]| && lists[b][k] == a;
    assert ListOk(heads[b], links, lists[b]) && LinkedAt(links, lists[b], k);
  }

  lemma Unlinked(heads: seq<nat>, links: map<nat, Links>, lists: seq<seq<nat>>, a: nat, b: nat, k: nat,
                 heads': seq<nat>, links': map<nat, Links>)
    requires ListsOk(heads, links, lists) && b < |lists| && k < |lists[b]| && lists[b][k] == a
    requires var p, n := Nth(lists[b], k - 1), Nth(lists[b], k + 1);
             && links' == SetPrevLink(SetNextLink(links, p, n), n, p)[a := Links(0, 0)]
             && heads' == if p != 0 then heads else heads[b := n]
    ensures ListsOk(heads', links', Unlink(lists, a, b))
  {
    var list := lists[b];
    assert ListOk(heads[b], links, list);
    WithoutAt(list, k);
    Removed(heads[b], links, list, k, links');
    Others(heads, links, lists, a, b, heads', links', Unlink(lists, a, b));
  }

  class FreeLists {
    var heads: seq<nat>
    var links: map<nat, Links>
    ghost var lists: seq<seq<nat>>

    ghost predicate Valid()
      reads this
    {
      ListsOk(heads, links, lists)
    }

    constructor (n: nat)
      ensures Valid() && |heads| == n && lists == seq(n, _ => [])
    {
      heads, links, lists := seq(n, _ => 0), map[], seq(n, _ => []);
    }

    /** `free_insert`. */
    method Insert(a: nat, b: nat)
      requires Valid() && a != 0 && b < |heads| && Unbinned(lists, a)
      modifies this
      ensures Valid() && lists == Link(old(lists), a, b)
    {
      ghost var was := links;
      var head := heads[b];
      assert ListOk(head, links, lists[b]);
      links := links[a := Links(0, head)];
      if head != 0 { links := SetPrevLink(links, head, a); }
      heads := heads[b := a];
      Pushed(head, was, lists[b], a, links);
      Others(old(heads), was, lists, a, b, heads, links, Link(lists, a, b));
      lists := Link(lists, a, b);
    }

    /** `free_remove`. */
    method Remove(a: nat, b: nat)
      requires Valid() && b < |heads| && a in lists[b]
      modifies this
      ensures Valid() && lists == Unlink(old(lists), a, b)
    {
      ghost var k := At(heads, links, lists, a, b);
      var l := links[a];
      if l.prev != 0 { links := SetNextLink(links, l.prev, l.next); } else { heads := heads[b := l.next]; }
      if l.next != 0 { links := SetPrevLink(links, l.next, l.prev); }
      links := links[a := Links(0, 0)];
      Unlinked(old(heads), old(links), lists, a, b, k, heads, links);
      lists := Unlink(lists, a, b);
    }

    /** A bin's head is the first of its list, or nothing. */
    lemma First(b: nat)
      requires Valid() && b < |heads|
      ensures heads[b] == Nth(lists[b], 0) && (heads[b] != 0 <==> lists[b] != [])
    {
      assert ListOk(heads[b], links, lists[b]);
      if lists[b] != [] { assert LinkedAt(links, lists[b], 0); }
    }

    /** A block's link is the next of its list, or nothing. */
    lemma Following(b: nat, i: nat)
      requires Valid() && b < |heads| && i < |lists[b]|
      ensures lists[b][i] in links && links[lists[b][i]].next == Nth(lists[b], i + 1)
      ensures links[lists[b][i]].next != 0 <==> i + 1 < |lists[b]|
    {
      assert ListOk(heads[b], links, lists[b]) && LinkedAt(links, lists[b], i);
      if i + 1 < |lists[b]| { assert LinkedAt(links, lists[b], i + 1); }
    }

    /** Following the links of a bin, as `find_fit` does, visits its list in order. */
    method Walk(b: nat) returns (visited: seq<nat>)
      requires Valid() && b < |heads|
      ensures visited == lists[b]
    {
      ghost var list := lists[b];
      assert ListOk(heads[b], links, list);
      forall i | 0 <= i < |list| ensures list[i] != 0 { assert LinkedAt(links, list, i); }
      visited := [];
      var blk := heads[b];
      while blk != 0
        invariant |visited| <= |list| && visited == list[..|visited|] && blk == Nth(list, |visited|)
        invariant forall i :: 0 <= i < |list| ==> list[i] != 0
        decreases |list| - |visited|
      {
        assert LinkedAt(links, list, |visited|);
        visited, blk := visited + [blk], links[blk].next;
      }
    }
  }
}
