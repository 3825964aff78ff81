/** The rendering surface of the web viewer, abstracted to what the viewer
    reads and writes: for every element id, the set of class names it carries.
    Adding or removing a class on an id that is not on the surface does nothing,
    as looking up an unknown id yields an empty element collection. */
module ClassSurface {

  /** The class names the viewer puts on elements. */
  datatype CssClass = Td | Highlighted | Bag | Blue | Red | Yellow | Green | SpanningTree | Invisible

  /** The class name as written in the style sheet. */
  function Name(c: CssClass): string
  {
    match c
    case Td => "td"
    case Highlighted => "highlighted"
    case Bag => "bag"
    case Blue => "blue"
    case Red => "red"
    case Yellow => "yellow"
    case Green => "green"
    case SpanningTree => "spanning-tree"
    case Invisible => "invisible"
  }

  type Surface = map<string, set<CssClass>>

  /** A surface holding each of `ids` with no class. */
  function Fresh(ids: seq<string>): (r: Surface)
    ensures forall id :: id in r <==> id in ids
    ensures forall id :: id in r ==> r[id] == {}
  {
    map id | id in ids :: {}
  }

  function AddClass(s: Surface, id: string, c: CssClass): (r: Surface)
    ensures r.Keys == s.Keys
    ensures forall k :: k in r ==> r[k] == if k == id then s[k] + {c} else s[k]
  {
    if id in s then s[id := s[id] + {c}] else s
  }

  function RemoveClass(s: Surface, id: string, c: CssClass): (r: Surface)
    ensures r.Keys == s.Keys
    ensures forall k :: k in r ==> r[k] == if k == id then s[k] - {c} else s[k]
  {
    if id in s then s[id := s[id] - {c}] else s
  }

  /** Adds `c` to every id of the list, one element at a time. */
  function AddClassAll(s: Surface, ids: seq<string>, c: CssClass): (r: Surface)
    ensures r.Keys == s.Keys
    ensures forall k :: k in r ==> r[k] == if k in ids then s[k] + {c} else s[k]
    decreases |ids|
  {
    if ids == [] then s
    else
      assert forall k :: k in ids <==> k == ids[0] || k in ids[1..];
      AddClassAll(AddClass(s, ids[0], c), ids[1..], c)
  }

  /** Removes `c` from every id of the list, one element at a time. */
  function RemoveClassAll(s: Surface, ids: seq<string>, c: CssClass): (r: Surface)
    ensures r.Keys == s.Keys
    ensures forall k :: k in r ==> r[k] == if k in ids then s[k] - {c} else s[k]
    decreases |ids|
  {
    if ids == [] then s
    else
      assert forall k :: k in ids <==> k == ids[0] || k in ids[1..];
      RemoveClassAll(RemoveClass(s, ids[0], c), ids[1..], c)
  }

  /** Every id of the list that is on the surface carries `c` exactly when `on`. */
  predicate ClassIs(s: Surface, ids: seq<string>, c: CssClass, on: bool) {
    forall k :: k in ids && k in s ==> (c in s[k] <==> on)
  }

  /** `r` has the same ids as `s`, and they differ only in the classes of `touched`. */
  predicate SameExcept(s: Surface, r: Surface, touched: set<CssClass>) {
    r.Keys == s.Keys && forall k :: k in s ==> r[k] - touched == s[k] - touched
  }

  lemma AddThenRemoveRestores(s: Surface, ids: seq<string>, c: CssClass)
    requires ClassIs(s, ids, c, false)
    ensures RemoveClassAll(AddClassAll(s, ids, c), ids, c) == s
  {
    var r := RemoveClassAll(AddClassAll(s, ids, c), ids, c);
    assert forall k :: k in s ==> r[k] == s[k];
  }

  lemma RemoveThenAddRestores(s: Surface, ids: seq<string>, c: CssClass)
    requires ClassIs(s, ids, c, true)
    ensures AddClassAll(RemoveClassAll(s, ids, c), ids, c) == s
  {
    var r := AddClassAll(RemoveClassAll(s, ids, c), ids, c);
    assert forall k :: k in s ==> r[k] == s[k];
  }

  lemma SameExceptKeeps(s: Surface, r: Surface, touched: set<CssClass>, ids: seq<string>, c: CssClass, on: bool)
    requires SameExcept(s, r, touched) && c !in touched && ClassIs(s, ids, c, on)
    ensures ClassIs(r, ids, c, on)
  {
    forall k | k in ids && k in r
      ensures c in r[k] <==> on
    {
      assert c in r[k] <==> c in r[k] - touched;
      assert c in s[k] <==> c in s[k] - touched;
    }
  }

  lemma SameExceptTrans(s: Surface, m: Surface, r: Surface, touched: set<CssClass>)
    requires SameExcept(s, m, touched) && SameExcept(m, r, touched)
    ensures SameExcept(s, r, touched)
  {
  }
}
