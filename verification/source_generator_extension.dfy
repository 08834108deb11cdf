/**
  Finding the attributes of a type declaration by name: every attribute of
  every bracketed list, those written with a given simple name, and the first
  of those.
*/
module SourceGeneratorExtension {
  import opened Wrappers
  import opened Syntax
  import Text

  /** The conventional suffix of attribute class names, which a query may carry. */
  const AttributeSuffix: string := "Attribute"

  /**
    Every attribute of the lists, list by list and within a list in written
    order (`SelectMany`): an attribute is listed exactly when some list holds it.
  */
  function Flatten(lists: seq<AttributeList>): (r: seq<Attribute>)
    ensures forall a :: a in r <==> exists i :: 0 <= i < |lists| && a in lists[i].attributes
  {
    if lists == [] then []
    else
      var rest := Flatten(lists[1..]);
      assert forall i :: 1 <= i < |lists| ==> lists[i] == lists[1..][i - 1];
      lists[0].attributes + rest
  }

  /**
    `GetAttributes()`: all attributes of a declaration, in source order (see
    `FlattenAround`): exactly those its attribute lists hold.
  */
  function GetAttributes(decl: TypeDeclaration): (r: seq<Attribute>)
    ensures forall a :: a in r <==> exists i :: 0 <= i < |decl.attributeLists| && a in decl.attributeLists[i].attributes
  {
    Flatten(decl.attributeLists)
  }

  /** Flattening distributes over concatenation of attribute lists. */
  lemma {:induction false} FlattenAppend(a: seq<AttributeList>, b: seq<AttributeList>)
    ensures Flatten(a + b) == Flatten(a) + Flatten(b)
  {
    if a == [] {
      assert a + b == b;
    } else {
      assert (a + b)[0] == a[0];
      assert (a + b)[1..] == a[1..] + b;
      FlattenAppend(a[1..], b);
    }
  }

  /**
    The flattened sequence is the attributes of the lists before list `i`,
    then list `i`'s attributes in order, then those of the lists after it.
  */
  lemma {:induction false} FlattenAround(lists: seq<AttributeList>, i: nat)
    requires i < |lists|
    ensures Flatten(lists) == Flatten(lists[..i]) + lists[i].attributes + Flatten(lists[i + 1..])
  {
    if i == 0 {
      assert lists[..0] == [];
    } else {
      var tail := lists[1..];
      FlattenAround(tail, i - 1);
      assert tail[..i - 1] == lists[..i][1..];
      assert tail[i - 1] == lists[i];
      assert tail[i..] == lists[i + 1..];
      assert lists[..i][0] == lists[0];
    }
  }

  /** The `j`-th attribute of list `i` sits after every attribute of the earlier lists. */
  lemma FlattenAt(lists: seq<AttributeList>, i: nat, j: nat)
    requires i < |lists| && j < |lists[i].attributes|
    ensures |Flatten(lists[..i])| + j < |Flatten(lists)|
    ensures Flatten(lists)[|Flatten(lists[..i])| + j] == lists[i].attributes[j]
  {
    FlattenAround(lists, i);
  }

  /** The query name with one trailing `Attribute` removed, if it has one (ordinal comparison). */
  function NormalizeName(name: string): (r: string)
    ensures Text.EndsWith(name, AttributeSuffix) ==> r + AttributeSuffix == name
    ensures !Text.EndsWith(name, AttributeSuffix) ==> r == name
  {
    if Text.EndsWith(name, AttributeSuffix)
    then name[..|name| - |AttributeSuffix|]
    else name
  }

  /**
    The queries that normalise to `x` are `x + "Attribute"` and, when `x` does
    not itself end with the suffix, `x`.
  */
  lemma NormalizeNameInverse(q: string, x: string)
    ensures NormalizeName(q) == x
            <==> (q == x && !Text.EndsWith(x, AttributeSuffix)) || q == x + AttributeSuffix
  {
    if q == x + AttributeSuffix {
      assert q[|q| - |AttributeSuffix|..] == AttributeSuffix;
      assert q[..|q| - |AttributeSuffix|] == x;
    }
  }

  /** True when `a` is written with the simple name `n`; qualified, generic and alias-qualified names never are. */
  predicate HasSimpleName(a: Attribute, n: string) {
    a.name.Identifier? && a.name.valueText == n
  }

  /** The attributes written with the simple name `n`, in their order (`Where`). */
  function FilterNamed(attrs: seq<Attribute>, n: string): (r: seq<Attribute>)
    ensures |r| <= |attrs|
    ensures forall a :: a in r <==> a in attrs && HasSimpleName(a, n)
  {
    if attrs == [] then []
    else
      var init := FilterNamed(attrs[..|attrs| - 1], n);
      assert forall a :: a in attrs <==> a in attrs[..|attrs| - 1] || a == attrs[|attrs| - 1];
      if HasSimpleName(attrs[|attrs| - 1], n) then init + [attrs[|attrs| - 1]] else init
  }

  /** The positions of `attrs` written with the simple name `n`: increasing, each a match, and every match among them. */
  function MatchIndices(attrs: seq<Attribute>, n: string): (idx: seq<nat>)
    ensures forall k :: 0 <= k < |idx| ==> idx[k] < |attrs| && HasSimpleName(attrs[idx[k]], n)
    ensures forall k, l :: 0 <= k < l < |idx| ==> idx[k] < idx[l]
    ensures forall i :: 0 <= i < |attrs| && HasSimpleName(attrs[i], n) ==> i in idx
  {
    if attrs == [] then []
    else
      var last := |attrs| - 1;
      var init := MatchIndices(attrs[..last], n);
      assert forall i :: 0 <= i < last ==> attrs[..last][i] == attrs[i];
      if HasSimpleName(attrs[last], n) then init + [last] else init
  }

  /**
    The filter is the subsequence at the matching positions: its `k`-th
    element is the attribute at the `k`-th matching position.
  */
  lemma {:induction false} FilterSelects(attrs: seq<Attribute>, n: string)
    ensures |FilterNamed(attrs, n)| == |MatchIndices(attrs, n)|
    ensures forall k :: 0 <= k < |MatchIndices(attrs, n)| ==> FilterNamed(attrs, n)[k] == attrs[MatchIndices(attrs, n)[k]]
  {
    if attrs != [] {
      var last := |attrs| - 1;
      var init := attrs[..last];
      FilterSelects(init, n);
      var r, idx := FilterNamed(attrs, n), MatchIndices(attrs, n);
      var r', idx' := FilterNamed(init, n), MatchIndices(init, n);
      assert r == if HasSimpleName(attrs[last], n) then r' + [attrs[last]] else r';
      assert idx == if HasSimpleName(attrs[last], n) then idx' + [last] else idx';
      forall k | 0 <= k < |idx| ensures r[k] == attrs[idx[k]] {
        if k < |idx'| {
          assert r[k] == r'[k] && idx[k] == idx'[k];
          assert init[idx'[k]] == attrs[idx'[k]];
        }
      }
    }
  }

  /**
    `GetAttributes(name)`: the declaration's attributes written with the simple
    name that the query denotes once its `Attribute` suffix is removed.
  */
  function GetAttributesNamed(decl: TypeDeclaration, name: string): (r: seq<Attribute>)
    ensures forall a :: a in r <==> a in GetAttributes(decl) && HasSimpleName(a, NormalizeName(name))
  {
    FilterNamed(GetAttributes(decl), NormalizeName(name))
  }

  /** `GetAttribute(name)`: the first attribute `GetAttributesNamed` yields, if any (`FirstOrDefault`). */
  function GetAttribute(decl: TypeDeclaration, name: string): (r: Option<Attribute>)
    ensures r.None? <==> forall a :: a in GetAttributes(decl) ==> !HasSimpleName(a, NormalizeName(name))
    ensures r.Some? ==> r.value in GetAttributes(decl) && HasSimpleName(r.value, NormalizeName(name))
  {
    var found := GetAttributesNamed(decl, name);
    if found == [] then None
    else
      assert found[0] in found;
      Some(found[0])
  }

  /** The attribute `GetAttribute` returns is the earliest one with the queried name. */
  lemma GetAttributeFirst(decl: TypeDeclaration, name: string, i: nat)
    requires i < |GetAttributes(decl)|
    requires HasSimpleName(GetAttributes(decl)[i], NormalizeName(name))
    requires forall k :: 0 <= k < i ==> !HasSimpleName(GetAttributes(decl)[k], NormalizeName(name))
    ensures GetAttribute(decl, name) == Some(GetAttributes(decl)[i])
  {
    var attrs := GetAttributes(decl);
    var n := NormalizeName(name);
    FilterSelects(attrs, n);
    var idx := MatchIndices(attrs, n);
    assert i in idx;
    var k :| 0 <= k < |idx| && idx[k] == i;
    assert HasSimpleName(attrs[idx[0]], n);
    assert idx[0] <= idx[k];
  }

  /** A query and the same query with `Attribute` appended find the same attributes, in the same order. */
  lemma SuffixedQueryAgrees(decl: TypeDeclaration, base: string)
    requires !Text.EndsWith(base, AttributeSuffix)
    ensures GetAttributesNamed(decl, base + AttributeSuffix) == GetAttributesNamed(decl, base)
    ensures GetAttribute(decl, base + AttributeSuffix) == GetAttribute(decl, base)
  {
    NormalizeNameInverse(base + AttributeSuffix, base);
  }

  /**
    The agreement needs its premise: `"Attribute"` denotes the empty name
    while `"AttributeAttribute"` denotes `Attribute`, so an attribute written
    `[Attribute]` is found by the second query and not by the first.
  */
  lemma SuffixOnlyQueryDiffers()
    ensures var decl := TypeDeclaration([AttributeList([Attribute(Identifier("Attribute"), None)])]);
            && GetAttributesNamed(decl, "Attribute") == []
            && GetAttributesNamed(decl, "Attribute" + AttributeSuffix) == GetAttributes(decl)
  {
    var a := Attribute(Identifier("Attribute"), None);
    var decl := TypeDeclaration([AttributeList([a])]);
    assert GetAttributes(decl) == [a];
    assert Text.EndsWith("Attribute", AttributeSuffix);
    assert NormalizeName("Attribute") == [];
    NormalizeNameInverse("Attribute" + AttributeSuffix, "Attribute");
  }

  /**
    An attribute whose own name carries the suffix, as in `[FooAttribute]`,
    is found neither by `"Foo"` nor by `"FooAttribute"`: only the query is
    normalised.
  */
  lemma SuffixedAttributeNotFound(decl: TypeDeclaration, base: string, a: Attribute)
    requires a.name == Identifier(base + AttributeSuffix)
    ensures a !in GetAttributesNamed(decl, base)
    ensures a !in GetAttributesNamed(decl, base + AttributeSuffix)
  {
    NormalizeNameInverse(base + AttributeSuffix, base);
  }

  /** Every attribute written with the queried simple name is found, in whichever list it sits. */
  lemma GetAttributesNamedComplete(decl: TypeDeclaration, name: string, i: nat, j: nat)
    requires i < |decl.attributeLists| && j < |decl.attributeLists[i].attributes|
    requires HasSimpleName(decl.attributeLists[i].attributes[j], NormalizeName(name))
    ensures decl.attributeLists[i].attributes[j] in GetAttributesNamed(decl, name)
  {
    FlattenAt(decl.attributeLists, i, j);
  }
}
