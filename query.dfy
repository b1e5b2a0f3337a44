/**
 * The selection, ordering and truncation `render_linklist` applies before
 * it emits markup, and the per-item decisions it makes while emitting it.
 */
module Query {
  import opened Wrappers
  import opened PhpStrings
  import opened OrderedMap
  import opened LinkFile
  import opened Html
  import opened Sequences

  /** The three comparators of the `usort` closure. */
  datatype Order = Alpha | Newest | Pinned

  /** `$opts['order']`: "alpha" and "new" pick their comparator; any other value sorts as "pin". */
  function OrderOf(s: string): Order
  {
    if s == "alpha" then Alpha else if s == "new" then Newest else Pinned
  }

  /** The `usort` comparator closure; a result of at most zero lets `a` stand before `b`. */
  function Compare(o: Order, a: Link, b: Link): int
  {
    match o
    case Alpha => Strcasecmp(a.title, b.title)
    case Newest => Spaceship(b.updated, a.updated)
    case Pinned =>
      var pa := if a.pin then 1 else 0;
      var pb := if b.pin then 1 else 0;
      if pa != pb then Spaceship(pb, pa) else Spaceship(b.updated, a.updated)
  }

  predicate Precedes(o: Order, a: Link, b: Link)
  {
    Compare(o, a, b) <= 0
  }

  /** Any two links can be ordered by each comparator. */
  lemma PrecedesTotal(o: Order, a: Link, b: Link)
    ensures Precedes(o, a, b) || Precedes(o, b, a)
  {
    if o == Alpha {
      StrcmpAntisymmetric(Lower(a.title), Lower(b.title));
    }
  }

  /** Each comparator orders links transitively. */
  lemma PrecedesTransitive(o: Order, a: Link, b: Link, c: Link)
    requires Precedes(o, a, b) && Precedes(o, b, c)
    ensures Precedes(o, a, c)
  {
    if o == Alpha {
      StrcmpTransitive(Lower(a.title), Lower(b.title), Lower(c.title));
    }
  }

  /** No later link should come before an earlier one. */
  ghost predicate Sorted(o: Order, s: seq<Link>)
  {
    forall i, j :: 0 <= i < j < |s| ==> Precedes(o, s[i], s[j])
  }

  /** Places `x` before the first element it may precede. */
  function Insert(o: Order, x: Link, s: seq<Link>): (r: seq<Link>)
    ensures multiset(r) == multiset(s) + multiset{x}
  {
    if s == [] then [x]
    else if Precedes(o, x, s[0]) then [x] + s
    else
      assert s == [s[0]] + s[1..];
      [s[0]] + Insert(o, x, s[1..])
  }

  /** A link that may precede every element of a sorted list may stand before it. */
  lemma SortedCons(o: Order, y: Link, t: seq<Link>)
    requires Sorted(o, t) && forall j :: 0 <= j < |t| ==> Precedes(o, y, t[j])
    ensures Sorted(o, [y] + t)
  {
    var r := [y] + t;
    forall i, j | 0 <= i < j < |r|
      ensures Precedes(o, r[i], r[j])
    {
      assert r[j] == t[j - 1];
      if i > 0 {
        assert r[i] == t[i - 1];
      }
    }
  }

  /** The head of a sorted list may precede anything in its tail. */
  lemma HeadPrecedesTail(o: Order, s: seq<Link>, y: Link)
    requires Sorted(o, s) && s != [] && y in s[1..]
    ensures Precedes(o, s[0], y)
  {
    var q :| 0 <= q < |s[1..]| && s[1..][q] == y;
    assert s[q + 1] == y;
  }

  lemma {:induction false} InsertSorted(o: Order, x: Link, s: seq<Link>)
    requires Sorted(o, s)
    ensures Sorted(o, Insert(o, x, s))
  {
    if s != [] {
      if Precedes(o, x, s[0]) {
        forall j | 0 <= j < |s|
          ensures Precedes(o, x, s[j])
        {
          if j > 0 {
            PrecedesTransitive(o, x, s[0], s[j]);
          }
        }
        SortedCons(o, x, s);
      } else {
        var tail := s[1..];
        assert Sorted(o, tail) by {
          assert forall i :: 0 <= i < |tail| ==> tail[i] == s[i + 1];
        }
        var rest := Insert(o, x, tail);
        InsertSorted(o, x, tail);
        PrecedesTotal(o, x, s[0]);
        forall j | 0 <= j < |rest|
          ensures Precedes(o, s[0], rest[j])
        {
          assert rest[j] in multiset(rest);
          if rest[j] != x {
            assert rest[j] in multiset(tail);
            HeadPrecedesTail(o, s, rest[j]);
          }
        }
        SortedCons(o, s[0], rest);
      }
    }
  }

  /** `usort($links, $cmp)`: a permutation of the links in comparator order. */
  function SortLinks(o: Order, s: seq<Link>): (r: seq<Link>)
    ensures multiset(r) == multiset(s)
    ensures Sorted(o, r)
  {
    if s == [] then []
    else
      var rest := SortLinks(o, s[1..]);
      InsertSorted(o, s[0], rest);
      assert s == [s[0]] + s[1..];
      Insert(o, s[0], rest)
  }

  /** What sortedness means for each value of `order`. */
  lemma SortedMeaning(o: Order, s: seq<Link>, i: nat, j: nat)
    requires Sorted(o, s) && i < j < |s|
    ensures o == Alpha ==> Strcmp(Lower(s[i].title), Lower(s[j].title)) <= 0
    ensures o == Newest ==> s[i].updated >= s[j].updated
    ensures o == Pinned ==> (s[j].pin ==> s[i].pin)
    ensures o == Pinned && s[i].pin == s[j].pin ==> s[i].updated >= s[j].updated
  {
    assert Precedes(o, s[i], s[j]);
  }

  /** `$category ? … : …`: a truthy category id restricts the listing to that category. */
  predicate Selects(category: Option<string>)
  {
    category.Some? && Truthy(category.value)
  }

  /** The category ids `render_linklist` walks through, in this order. */
  function SelectCategories(cats: OMap<string>, category: Option<string>): (ids: seq<string>)
    ensures forall id :: id in ids <==> HasKey(cats, id) && (Selects(category) ==> id == category.value)
    ensures Selects(category) ==> |ids| <= 1
    ensures !Selects(category) ==> ids == Keys(cats)
  {
    if Selects(category) then
      (if HasKey(cats, category.value) then [category.value] else [])
    else
      assert forall id :: id in Keys(cats) <==> HasKey(cats, id) by {
        forall id | HasKey(cats, id) ensures id in Keys(cats) {
          assert Keys(cats)[Find(cats, id)] == id;
        }
      }
      Keys(cats)
  }

  /** `array_slice($s, 0, $length)`: a negative length counts from the end. */
  function ArraySlice<T>(s: seq<T>, length: int): (r: seq<T>)
    ensures |r| <= |s| && r == s[..|r|]
    ensures 0 <= length ==> |r| == if length <= |s| then length else |s|
    ensures length < 0 ==> |r| == if -length <= |s| then |s| + length else 0
  {
    if 0 <= length then s[..if length <= |s| then length else |s|]
    else s[..if -length <= |s| then |s| + length else 0]
  }

  /** `if ($limit) $links = array_slice($links, 0, $limit)`: null and 0 keep every link. */
  function Truncate<T>(s: seq<T>, limit: Option<int>): seq<T>
  {
    if limit.Some? && limit.value != 0 then ArraySlice(s, limit.value) else s
  }

  /** The links of one category, sorted and truncated. */
  function OrderedLinks(links: Links, order: string, limit: Option<int>): seq<Link>
  {
    Truncate(SortLinks(OrderOf(order), Values(links)), limit)
  }

  /**
   * The listing is a leading part of the sorted links of the category:
   * all of them for a null or zero limit, the first `limit` for a positive
   * one, all but the last `-limit` for a negative one.
   */
  lemma OrderedLinksSpec(links: Links, order: string, limit: Option<int>)
    ensures var sorted, r := SortLinks(OrderOf(order), Values(links)), OrderedLinks(links, order, limit);
      && Sorted(OrderOf(order), r)
      && r == sorted[..|r|]
      && multiset(r) <= multiset(Values(links))
      && (limit.None? || limit.value == 0 ==> multiset(r) == multiset(Values(links)))
      && (limit.Some? && limit.value > 0 ==> |r| == if limit.value <= |links| then limit.value else |links|)
      && (limit.Some? && limit.value < 0 ==> |r| == if -limit.value <= |links| then |links| + limit.value else 0)
  {
    var o := OrderOf(order);
    var sorted := SortLinks(o, Values(links));
    var r := OrderedLinks(links, order, limit);
    assert |sorted| == |links| by {
      assert |multiset(sorted)| == |multiset(Values(links))|;
    }
    PrefixSorted(o, sorted, |r|);
    PrefixSubMultiset(sorted, |r|);
  }

  /** A leading part of a sorted list is sorted. */
  lemma PrefixSorted(o: Order, s: seq<Link>, n: nat)
    requires Sorted(o, s) && n <= |s|
    ensures Sorted(o, s[..n])
  {
    var p := s[..n];
    forall i, j | 0 <= i < j < |p|
      ensures Precedes(o, p[i], p[j])
    {
      assert p[i] == s[i] && p[j] == s[j];
    }
  }

  /** A leading part holds no more than the whole. */
  lemma PrefixSubMultiset<T>(s: seq<T>, n: nat)
    requires n <= |s|
    ensures multiset(s[..n]) <= multiset(s)
  {
    assert s == s[..n] + s[n..];
    assert multiset(s) == multiset(s[..n]) + multiset(s[n..]);
  }

  /** One `<li>`: escaped URL and title, the description only when asked for and present, the pin marker for pinned links. */
  datatype Item = Item(href: string, text: string, desc: Option<string>, pinMarker: bool)

  /** One `<section>`: the escaped category name and its items. */
  datatype Section = Section(heading: string, items: seq<Item>)

  function RenderItem(l: Link, showDesc: bool): Item
  {
    Item(Escape(l.url), Escape(l.title), if showDesc && l.desc != "" then Some(Escape(l.desc)) else None, l.pin)
  }

  /** An item shows the link's own text, safely escaped, and the two per-item decisions. */
  lemma RenderItemFaithful(l: Link, showDesc: bool)
    ensures var it := RenderItem(l, showDesc);
      && Unescape(it.href) == l.url && Unescape(it.text) == l.title
      && (it.desc.Some? <==> showDesc && l.desc != "")
      && (it.desc.Some? ==> Unescape(it.desc.value) == l.desc)
      && (it.pinMarker <==> l.pin)
  {
    EscapeRoundTrip(l.url);
    EscapeRoundTrip(l.title);
    EscapeRoundTrip(l.desc);
  }

  /** `$cats[$cid] ?? $cid`. */
  function DisplayName(cats: OMap<string>, cid: string): string
  {
    match Get(cats, cid)
    case Some(name) => name
    case None => cid
  }

  /** The items of one section, one per link, in the links' order. */
  function RenderItems(links: seq<Link>, showDesc: bool): seq<Item>
  {
    Map(ItemOf(showDesc), links)
  }

  /** `RenderItem` with the show-desc flag fixed, as one function value. */
  function ItemOf(showDesc: bool): Link -> Item
  {
    (l: Link) => RenderItem(l, showDesc)
  }

  /** Item k of a section renders link k: one item per link, in the links' order. */
  lemma RenderItemsIndex(links: seq<Link>, showDesc: bool)
    ensures var items := RenderItems(links, showDesc);
      |items| == |links| && forall k :: 0 <= k < |links| ==> items[k] == RenderItem(links[k], showDesc)
  {
    MapIndex(ItemOf(showDesc), links);
  }

  /** The loop of `render_linklist` over one category's ordered links. */
  method EmitItems(links: seq<Link>, showDesc: bool) returns (items: seq<Item>)
    ensures items == RenderItems(links, showDesc)
  {
    items := [];
    var k := 0;
    while k < |links|
      invariant 0 <= k <= |links|
      invariant items == RenderItems(links[..k], showDesc)
    {
      MapSnoc(ItemOf(showDesc), links, k);
      items := items + [RenderItem(links[k], showDesc)];
      k := k + 1;
    }
    assert links[..|links|] == links;
  }

  /** The section for one category, given its links. */
  function RenderSection(name: string, links: Links, showDesc: bool, limit: Option<int>, order: string): Section
  {
    Section(Escape(name), RenderItems(OrderedLinks(links, order, limit), showDesc))
  }
}
