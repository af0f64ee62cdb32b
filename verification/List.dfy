/** Doubly linked lists with two header elements, changed by rewriting links. */
module Lists {
  import opened Seqs

  class Elem {
    var prev: Elem?
    var next: Elem?

    constructor ()
      ensures prev == null && next == null
    {
      prev, next := null, null;
    }
  }

  /** The elements of c are linked to each other, in order, and to nothing else. */
  ghost predicate Linked(c: seq<Elem>)
    reads c
  {
    && |c| >= 2
    && Distinct(c)
    && c[0].prev == null && c[|c| - 1].next == null
    && (forall i :: 0 <= i < |c| - 1 ==> c[i].next == c[i + 1])
    && (forall i :: 0 < i < |c| ==> c[i].prev == c[i - 1])
  }

  // ----- Surgery on sequences

  ghost function Inserted<E>(s: seq<E>, k: nat, x: E): seq<E>
    requires k <= |s|
  {
    s[..k] + [x] + s[k..]
  }

  ghost function Without<E>(s: seq<E>, k: nat): seq<E>
    requires k < |s|
  {
    s[..k] + s[k + 1..]
  }

  /** The elements from f up to l, taken out and put back in front of position b. */
  ghost function Spliced<E>(s: seq<E>, b: nat, f: nat, l: nat): seq<E>
    requires f <= l <= |s| && b <= |s| && (b < f || l <= b)
  {
    if b < f then s[..b] + s[f..l] + s[b..f] + s[l..]
    else s[..f] + s[l..b] + s[f..l] + s[b..]
  }

  lemma InsertedDistinct<E>(s: seq<E>, k: nat, x: E)
    requires Distinct(s) && k <= |s| && x !in s
    ensures Distinct(Inserted(s, k, x))
  {
  }

  /** Where the element at position i of the spliced sequence comes from. */
  ghost function SplicedFrom(b: nat, f: nat, l: nat, i: nat): nat
    requires f <= l && (b < f || l <= b)
  {
    if b < f then
      if i < b then i else if i < b + (l - f) then i - b + f else if i < l then i - (l - f) else i
    else
      if i < f then i else if i < f + (b - l) then i + (l - f) else if i < b then i - (b - l) else i
  }

  lemma IndexOfFour<E>(p: seq<E>, q: seq<E>, r: seq<E>, t: seq<E>, i: nat)
    requires i < |p| + |q| + |r| + |t|
    ensures |p + q + r + t| == |p| + |q| + |r| + |t|
    ensures (p + q + r + t)[i]
            == if i < |p| then p[i]
               else if i < |p| + |q| then q[i - |p|]
               else if i < |p| + |q| + |r| then r[i - |p| - |q|]
               else t[i - |p| - |q| - |r|]
  {
  }

  lemma SplicedAt<E>(s: seq<E>, b: nat, f: nat, l: nat, i: nat)
    requires f <= l <= |s| && b <= |s| && (b < f || l <= b) && i < |s|
    ensures |Spliced(s, b, f, l)| == |s| && SplicedFrom(b, f, l, i) < |s|
    ensures Spliced(s, b, f, l)[i] == s[SplicedFrom(b, f, l, i)]
  {
    if b < f {
      IndexOfFour(s[..b], s[f..l], s[b..f], s[l..], i);
    } else {
      IndexOfFour(s[..f], s[l..b], s[f..l], s[b..], i);
    }
  }

  lemma SplicedLength<E>(s: seq<E>, b: nat, f: nat, l: nat)
    requires f <= l <= |s| && b <= |s| && (b < f || l <= b)
    ensures |Spliced(s, b, f, l)| == |s|
  {
  }

  lemma SplicedDistinct<E>(s: seq<E>, b: nat, f: nat, l: nat)
    requires Distinct(s) && f <= l <= |s| && b <= |s| && (b < f || l <= b)
    ensures Distinct(Spliced(s, b, f, l))
  {
    hide Spliced;
    SplicedLength(s, b, f, l);
    var d := Spliced(s, b, f, l);
    forall i, j | 0 <= i < j < |d|
      ensures d[i] != d[j]
    {
      SplicedAt(s, b, f, l, i);
      SplicedAt(s, b, f, l, j);
    }
  }

  // ----- Surgery on links

  lemma InsertedLinks(c: seq<Elem>, k: nat, x: Elem)
    requires Distinct(c) && x !in c && 0 < k < |c|
    requires c[0].prev == null && c[|c| - 1].next == null
    requires forall i :: 0 <= i < |c| - 1 && i != k - 1 ==> c[i].next == c[i + 1] && c[i + 1].prev == c[i]
    requires c[k - 1].next == x && x.prev == c[k - 1] && x.next == c[k] && c[k].prev == x
    ensures Linked(Inserted(c, k, x))
  {
    InsertedDistinct(c, k, x);
    hide Distinct;
    var d := Inserted(c, k, x);
    assert forall i :: 0 <= i < |d| ==> d[i] == if i < k then c[i] else if i == k then x else c[i - 1];
  }

  /** list_insert */
  method Insert(before: Elem, elem: Elem, ghost c: seq<Elem>, ghost k: nat)
    requires Linked(c) && 0 < k < |c| && before == c[k] && elem !in c
    modifies c, elem
    ensures Linked(Inserted(c, k, elem))
  {
    hide Inserted;
    assert c[k].prev == c[k - 1];
    elem.prev := before.prev;
    elem.next := before;
    before.prev.next := elem;
    before.prev := elem;
    InsertedLinks(c, k, elem);
  }

  /** list_remove */
  method Remove(elem: Elem, ghost c: seq<Elem>, ghost k: nat) returns (e: Elem)
    requires Linked(c) && 0 < k < |c| - 1 && elem == c[k]
    modifies c
    ensures Linked(Without(c, k)) && e == c[k + 1]
    ensures elem.prev == old(elem.prev) && elem.next == old(elem.next)
  {
    assert c[k - 1].next == c[k] && c[k + 1].prev == c[k];
    elem.prev.next := elem.next;
    elem.next.prev := elem.prev;
    e := elem.next;
  }

  /** The links of c after the six stores of list_splice, seen as a chain. */
  lemma Relinked(c: seq<Elem>, b: nat, f: nat, l: nat)
    requires Distinct(c) && 0 < f < l < |c| && 0 < b < |c| && (b < f || l < b)
    requires c[0].prev == null && c[|c| - 1].next == null
    requires forall i :: 0 <= i < |c| - 1 && i != f - 1 && i != l - 1 && i != b - 1 ==> c[i].next == c[i + 1]
    requires forall i :: 0 < i < |c| && i != f && i != l && i != b ==> c[i].prev == c[i - 1]
    requires c[f - 1].next == c[l] && c[l - 1].next == c[b] && c[b - 1].next == c[f]
    requires c[l].prev == c[f - 1] && c[f].prev == c[b - 1] && c[b].prev == c[l - 1]
    ensures Linked(Spliced(c, b, f, l))
  {
    hide Spliced, Distinct;
    SplicedDistinct(c, b, f, l);
    var d := Spliced(c, b, f, l);
    SplicedAt(c, b, f, l, 0);
    SplicedAt(c, b, f, l, |c| - 1);
    forall i | 0 <= i < |d| - 1
      ensures d[i].next == d[i + 1] && d[i + 1].prev == d[i]
    {
      SplicedAt(c, b, f, l, i);
      SplicedAt(c, b, f, l, i + 1);
    }
  }

  lemma SplicedSame<E>(s: seq<E>, b: nat, f: nat, l: nat)
    requires f <= l <= |s| && b <= |s| && (b < f || l <= b) && (f == l || b == l)
    ensures Spliced(s, b, f, l) == s
  {
  }

  ghost predicate Disjoint<E>(c: seq<E>, d: seq<E>) {
    forall i, j :: 0 <= i < |c| && 0 <= j < |d| ==> c[i] != d[j]
  }

  /** A target chain that took the elements from f up to l of another chain. */
  ghost function Joined<E>(c: seq<E>, b: nat, d: seq<E>, f: nat, l: nat): seq<E>
    requires b <= |c| && f <= l <= |d|
  {
    c[..b] + d[f..l] + c[b..]
  }

  lemma JoinedDistinct<E>(c: seq<E>, b: nat, d: seq<E>, f: nat, l: nat)
    requires Distinct(c) && Distinct(d) && Disjoint(c, d) && b <= |c| && f <= l <= |d|
    ensures Distinct(Joined(c, b, d, f, l))
  {
    var e := Joined(c, b, d, f, l);
    var n := l - f;
    forall i, j | 0 <= i < j < |e| ensures e[i] != e[j] {
      assert e[i] == if i < b then c[i] else if i < b + n then d[f + i - b] else c[i - n];
      assert e[j] == if j < b then c[j] else if j < b + n then d[f + j - b] else c[j - n];
    }
  }

  lemma JoinedLinks(c: seq<Elem>, b: nat, d: seq<Elem>, f: nat, l: nat)
    requires Distinct(c) && Distinct(d) && Disjoint(c, d) && 0 < b < |c| && 0 < f < l < |d|
    requires c[0].prev == null && c[|c| - 1].next == null
    requires forall i :: 0 <= i < |c| - 1 && i != b - 1 ==> c[i].next == c[i + 1]
    requires forall i :: 0 < i < |c| && i != b ==> c[i].prev == c[i - 1]
    requires forall i :: f <= i < l - 1 ==> d[i].next == d[i + 1] && d[i + 1].prev == d[i]
    requires c[b - 1].next == d[f] && d[f].prev == c[b - 1] && d[l - 1].next == c[b] && c[b].prev == d[l - 1]
    ensures Linked(Joined(c, b, d, f, l))
  {
    JoinedDistinct(c, b, d, f, l);
    hide Distinct;
    var e := Joined(c, b, d, f, l);
    var n := l - f;
    forall i | 0 <= i < |e| - 1 ensures e[i].next == e[i + 1] && e[i + 1].prev == e[i] {
      assert e[i] == if i < b then c[i] else if i < b + n then d[f + i - b] else c[i - n];
      assert e[i + 1] == if i + 1 < b then c[i + 1] else if i + 1 < b + n then d[f + i + 1 - b] else c[i + 1 - n];
    }
  }

  lemma CutLinks(d: seq<Elem>, f: nat, l: nat)
    requires Distinct(d) && 0 < f < l < |d|
    requires d[0].prev == null && d[|d| - 1].next == null
    requires forall i :: 0 <= i < |d| - 1 && (i < f - 1 || l <= i) ==> d[i].next == d[i + 1] && d[i + 1].prev == d[i]
    requires d[f - 1].next == d[l] && d[l].prev == d[f - 1]
    ensures Linked(d[..f] + d[l..])
  {
    var e := d[..f] + d[l..];
    assert forall i :: 0 <= i < |e| ==> e[i] == if i < f then d[i] else d[i + l - f];
  }

  /** The range from first to end is taken out from between `at` and `rest`. */
  method TakeOut(first: Elem, end: Elem, ghost at: Elem, ghost rest: Elem)
    requires first.prev == at && end.next == rest && at != end && at != first && rest != first
    modifies at`next, rest`prev
    ensures at.next == rest && rest.prev == at
  {
    first.prev.next := end.next;
    end.next.prev := first.prev;
  }

  /** The range from first to end goes between before and the element in front of it. */
  method PutIn(before: Elem, first: Elem, end: Elem, ghost at: Elem)
    requires before.prev == at && at != first && at != end && at != before && before != first && before != end
    modifies first`prev, end`next, at`next, before`prev
    ensures first.prev == at && end.next == before && at.next == first && before.prev == end
  {
    first.prev := before.prev;
    end.next := before;
    before.prev.next := first;
    before.prev := end;
  }

  /** list_splice: the elements from first up to last, of chain d, go in front of an element
      of chain c, which is d itself or a chain that shares no element with it. */
  method Splice(before: Elem, first: Elem, last: Elem,
                ghost c: seq<Elem>, ghost b: nat, ghost d: seq<Elem>, ghost f: nat, ghost l: nat)
    requires Linked(c) && Linked(d) && 0 < f <= l < |d| && 0 < b < |c|
    requires if c == d then b < f || l <= b else Disjoint(c, d)
    requires before == c[b] && first == d[f] && last == d[l]
    modifies c, d
    ensures c == d ==> Linked(Spliced(c, b, f, l))
    ensures c != d ==> Linked(Joined(c, b, d, f, l)) && Linked(d[..f] + d[l..])
  {
    hide Spliced, Joined;
    if c == d && (f == l || b == l) { SplicedSame(c, b, f, l); }
    if first == last {
      SpliceNone(c, b, d, f, l);
      return;
    }
    assert f < l && d[l].prev == d[l - 1] && c[b].prev == c[b - 1];
    assert d[f].prev == d[f - 1] && d[l - 1].next == d[l];
    var end := last.prev;
    ghost var at := if c == d && b == l then d[f - 1] else c[b - 1];
    TakeOut(first, end, d[f - 1], d[l]);
    PutIn(before, first, end, at);
    if c != d {
      JoinedLinks(c, b, d, f, l);
      CutLinks(d, f, l);
    } else if b != l {
      Relinked(c, b, f, l);
    }
  }

  lemma SpliceNone(c: seq<Elem>, b: nat, d: seq<Elem>, f: nat, l: nat)
    requires Distinct(d) && b <= |c| && f <= l < |d| && d[f] == d[l]
    ensures f == l && Joined(c, b, d, f, l) == c && d[..f] + d[l..] == d
  {
  }

  /** struct list: the two headers, with the elements between them as a sequence. */
  class List {
    const head: Elem
    const tail: Elem
    ghost var elems: seq<Elem>

    ghost function Chain(): (c: seq<Elem>)
      reads this
    {
      [head] + elems + [tail]
    }

    ghost predicate Valid()
      reads this, Chain()
    {
      Linked(Chain())
    }

    /** list_init */
    constructor ()
      ensures Valid() && elems == [] && fresh(head) && fresh(tail) && head != tail
    {
      var h := new Elem();
      var t := new Elem();
      h.next, t.prev := t, h;
      head, tail := h, t;
      elems := [];
    }

    method PushFront(elem: Elem)
      requires Valid() && elem !in Chain()
      modifies this, Chain(), elem
      ensures Valid() && elems == [elem] + old(elems)
    {
      assert Chain()[0].next == Chain()[1];
      Insert(head.next, elem, Chain(), 1);
      assert Inserted(Chain(), 1, elem) == [head] + ([elem] + elems) + [tail];
      elems := [elem] + elems;
    }

    method PushBack(elem: Elem)
      requires Valid() && elem !in Chain()
      modifies this, Chain(), elem
      ensures Valid() && elems == old(elems) + [elem]
    {
      Insert(tail, elem, Chain(), |elems| + 1);
      assert Inserted(Chain(), |elems| + 1, elem) == [head] + (elems + [elem]) + [tail];
      elems := elems + [elem];
    }

    method PopFront() returns (front: Elem)
      requires Valid() && elems != []
      modifies this, Chain()
      ensures Valid() && front == old(elems)[0] && elems == old(elems)[1..]
    {
      assert Chain()[0].next == Chain()[1];
      front := head.next;
      var _ := Remove(front, Chain(), 1);
      assert Without(Chain(), 1) == [head] + elems[1..] + [tail];
      elems := elems[1..];
    }

    method IsEmpty() returns (empty: bool)
      requires Valid()
      ensures empty <==> elems == []
    {
      assert Chain()[0].next == Chain()[1];
      empty := head.next == tail;
    }
  }
}
