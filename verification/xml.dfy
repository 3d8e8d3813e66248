/** The part of an lxml element tree the scraper reads: tags, the text
    before the first child, and the children in document order. Parsing the
    response bytes into this tree is not modelled; a response carries the
    tree, or nothing when its body is not well-formed XML. */
module Xml {
  import opened Common

  datatype Element = Element(tag: string, text: Option<string>, kids: seq<Element>)

  /** `elem.find(tag)`: the first direct child with that tag. */
  function Find(e: Element, tag: string): (r: Option<Element>)
    ensures r.Some? <==> exists i :: 0 <= i < |e.kids| && e.kids[i].tag == tag
    ensures r.Some? ==> r.value in e.kids && r.value.tag == tag
  {
    FindFrom(e.kids, tag)
  }

  function FindFrom(kids: seq<Element>, tag: string): (r: Option<Element>)
    ensures r.Some? <==> exists i :: 0 <= i < |kids| && kids[i].tag == tag
    ensures r.Some? ==> r.value in kids && r.value.tag == tag
    ensures r.Some? ==> exists i :: 0 <= i < |kids| && kids[i] == r.value
                                && forall k :: 0 <= k < i ==> kids[k].tag != tag
  {
    if |kids| == 0 then None
    else if kids[0].tag == tag then Some(kids[0])
    else
      var r := FindFrom(kids[1..], tag);
      assert forall i :: 1 <= i < |kids| ==> kids[i] == kids[1..][i - 1];
      r
  }

  /** `elem.findall(tag)`: the direct children with that tag, in order. */
  function FindAll(e: Element, tag: string): seq<Element>
  {
    Children(e.kids, tag)
  }

  function Children(kids: seq<Element>, tag: string): (r: seq<Element>)
    ensures |r| <= |kids|
  {
    if |kids| == 0 then []
    else (if kids[0].tag == tag then [kids[0]] else []) + Children(kids[1..], tag)
  }

  /** The element's proper descendants, in document (pre-) order. */
  function Descendants(e: Element): seq<Element>
    decreases e, 1
  {
    DescendantsOf(e, 0)
  }

  function DescendantsOf(e: Element, i: nat): seq<Element>
    requires i <= |e.kids|
    decreases e, 0, |e.kids| - i
  {
    if i == |e.kids| then []
    else [e.kids[i]] + Descendants(e.kids[i]) + DescendantsOf(e, i + 1)
  }

  /** `root.findall(".//entries/address")`: for every descendant `entries`
      element in document order, its `address` children. */
  function EntryAddresses(root: Element): seq<Element>
  {
    AddressesUnder(Descendants(root))
  }

  lemma ChildrenMembers(kids: seq<Element>, tag: string)
    ensures forall x :: x in Children(kids, tag) <==> x in kids && x.tag == tag
  {
  }

  /** `findall` on a single child keeps it exactly when its tag matches. */
  lemma ChildrenOne(k: Element, tag: string)
    ensures Children([k], tag) == if k.tag == tag then [k] else []
  {
    assert [k][1..] == [];
  }

  /** `findall` on a run of children is `findall` on each part in turn: the
      matching children keep their document order. */
  lemma {:induction false} ChildrenAppend(a: seq<Element>, b: seq<Element>, tag: string)
    ensures Children(a + b, tag) == Children(a, tag) + Children(b, tag)
    decreases |a|
  {
    if |a| == 0 {
      assert a + b == b;
    } else {
      var ab := a + b;
      assert ab[0] == a[0] && ab[1..] == a[1..] + b;
      ChildrenAppend(a[1..], b, tag);
      var h := if a[0].tag == tag then [a[0]] else [];
      var x, y := Children(a[1..], tag), Children(b, tag);
      assert Children(ab, tag) == h + (x + y);
      assert h + (x + y) == (h + x) + y;
    }
  }

  function AddressesUnder(ds: seq<Element>): seq<Element>
  {
    if |ds| == 0 then []
    else (if ds[0].tag == "entries" then FindAll(ds[0], "address") else []) + AddressesUnder(ds[1..])
  }

  /** The addresses under a run of elements are those under each part in
      turn, so they keep document order. */
  lemma {:induction false} AddressesUnderAppend(a: seq<Element>, b: seq<Element>)
    ensures AddressesUnder(a + b) == AddressesUnder(a) + AddressesUnder(b)
    decreases |a|
  {
    if |a| == 0 {
      assert a + b == b;
    } else {
      var ab := a + b;
      assert ab[0] == a[0] && ab[1..] == a[1..] + b;
      AddressesUnderAppend(a[1..], b);
      var h := if a[0].tag == "entries" then FindAll(a[0], "address") else [];
      var x, y := AddressesUnder(a[1..]), AddressesUnder(b);
      assert AddressesUnder(ab) == h + (x + y);
      assert h + (x + y) == (h + x) + y;
    }
  }

  /** An element is found under a run exactly when it is an `address` child
      of an `entries` element of the run. */
  lemma {:induction false} AddressesUnderMembers(ds: seq<Element>, x: Element)
    ensures x in AddressesUnder(ds) <==>
      exists i :: 0 <= i < |ds| && ds[i].tag == "entries" && x in ds[i].kids && x.tag == "address"
    decreases |ds|
  {
    if |ds| > 0 {
      AddressesUnderMembers(ds[1..], x);
      ChildrenMembers(ds[0].kids, "address");
      assert forall i :: 1 <= i < |ds| ==> ds[i] == ds[1..][i - 1];
      if exists i :: 0 <= i < |ds| && ds[i].tag == "entries" && x in ds[i].kids && x.tag == "address" {
        var i :| 0 <= i < |ds| && ds[i].tag == "entries" && x in ds[i].kids && x.tag == "address";
        if i > 0 {
          assert ds[1..][i - 1] == ds[i];
        }
      }
    }
  }

  /** `.//entries/address` finds exactly the `address` children of the
      root's descendant `entries` elements; the root itself is not searched. */
  lemma EntryAddressesMembers(root: Element, x: Element)
    ensures x in EntryAddresses(root) <==>
      exists d :: d in Descendants(root) && d.tag == "entries" && x in d.kids && x.tag == "address"
  {
    var ds := Descendants(root);
    AddressesUnderMembers(ds, x);
    if exists d :: d in ds && d.tag == "entries" && x in d.kids && x.tag == "address" {
      var d :| d in ds && d.tag == "entries" && x in d.kids && x.tag == "address";
      var i :| 0 <= i < |ds| && ds[i] == d;
    }
  }

  /** Python's `str.isspace` for one character. */
  predicate IsSpace(c: char)
  {
    || ('\U{9}' <= c <= '\U{d}') || ('\U{1c}' <= c <= '\U{20}')
    || c == '\U{85}' || c == '\U{a0}' || c == '\U{1680}'
    || ('\U{2000}' <= c <= '\U{200a}') || c == '\U{2028}' || c == '\U{2029}'
    || c == '\U{202f}' || c == '\U{205f}' || c == '\U{3000}'
  }

  function StripLeft(s: string): (r: string)
    ensures |r| <= |s| && r == s[|s| - |r|..]
    ensures forall i :: 0 <= i < |s| - |r| ==> IsSpace(s[i])
    ensures |r| > 0 ==> !IsSpace(r[0])
  {
    if |s| > 0 && IsSpace(s[0]) then
      var r := StripLeft(s[1..]);
      assert s[1..][|s| - 1 - |r|..] == s[|s| - |r|..];
      r
    else s
  }

  function StripRight(s: string): (r: string)
    ensures |r| <= |s| && r == s[..|r|]
    ensures forall i :: |r| <= i < |s| ==> IsSpace(s[i])
    ensures |r| > 0 ==> !IsSpace(r[|r| - 1])
  {
    if |s| > 0 && IsSpace(s[|s| - 1]) then
      var r := StripRight(s[..|s| - 1]);
      assert s[..|s| - 1][..|r|] == s[..|r|];
      r
    else s
  }

  /** The number of whitespace characters `s` starts with. */
  function LeadingSpaces(s: string): (n: nat)
    ensures n <= |s|
    ensures forall k :: 0 <= k < n ==> IsSpace(s[k])
    ensures n < |s| ==> !IsSpace(s[n])
  {
    if |s| > 0 && IsSpace(s[0]) then 1 + LeadingSpaces(s[1..]) else 0
  }

  /** `s.strip()`: the slice of `s` that starts after its leading whitespace,
      with only whitespace after it and no whitespace at either end. */
  function Strip(s: string): (r: string)
    ensures LeadingSpaces(s) + |r| <= |s|
    ensures r == s[LeadingSpaces(s)..LeadingSpaces(s) + |r|]
    ensures forall k :: LeadingSpaces(s) + |r| <= k < |s| ==> IsSpace(s[k])
    ensures |r| > 0 ==> !IsSpace(r[0]) && !IsSpace(r[|r| - 1])
  {
    StripLeadingAgrees(s);
    StripRight(StripLeft(s))
  }

  lemma {:induction false} StripLeadingAgrees(s: string)
    ensures |s| - |StripLeft(s)| == LeadingSpaces(s)
  {
    if |s| > 0 && IsSpace(s[0]) {
      StripLeadingAgrees(s[1..]);
    }
  }

  /** A string made only of whitespace strips to the empty string. */
  lemma StripAllSpace(s: string)
    requires forall i :: 0 <= i < |s| ==> IsSpace(s[i])
    ensures Strip(s) == ""
  {
  }

  /** Stripping text that has no whitespace at its ends changes nothing. */
  lemma StripTrimmed(s: string)
    requires |s| > 0 ==> !IsSpace(s[0]) && !IsSpace(s[|s| - 1])
    ensures Strip(s) == s
  {
  }
}
