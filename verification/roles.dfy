/** The role list of a user and PHP's `array_unique` over it. */
module Roles {

  /** A role token such as "ROLE_ADMIN". */
  type Role = string

  /** The role every user holds when none is stored. */
  const DefaultRole: Role := "ROLE_USER"

  /** One element of a PHP array: its key and its value. `array_unique`
      keeps the keys of the elements it retains, so the view it returns is
      not re-indexed. */
  type Entry = (nat, Role)

  /** `s[i]` is the first occurrence of its value in `s`. */
  predicate FirstAt(s: seq<Role>, i: nat)
    requires i < |s|
  {
    forall j :: 0 <= j < i ==> s[j] != s[i]
  }

  /** The values of an array, in order. */
  function Values(r: seq<Entry>): seq<Role> {
    seq(|r|, k requires 0 <= k < |r| => r[k].1)
  }

  /** No value occurs twice. */
  predicate Distinct(s: seq<Role>) {
    forall a, b :: 0 <= a < b < |s| ==> s[a] != s[b]
  }

  /** `array_unique($s)` on a list: the first occurrence of every value,
      under its original key, in the original order. Every entry it
      returns is a first occurrence of `s`, under its own key. */
  function Unique(s: seq<Role>): (r: seq<Entry>)
    ensures forall k :: 0 <= k < |r| ==> r[k].0 < |s| && r[k].1 == s[r[k].0] && FirstAt(s, r[k].0)
  {
    if s == [] then []
    else
      var p := s[..|s| - 1];
      var r := Unique(p);
      assert forall k :: 0 <= k < |r| ==> FirstAt(p, r[k].0) && s[r[k].0] == p[r[k].0];
      if s[|s| - 1] in p then r else r + [(|s| - 1, s[|s| - 1])]
  }

  /** The retained entries keep the order of `s`: keys strictly increase. */
  lemma {:induction false} UniqueKeysIncrease(s: seq<Role>)
    ensures forall a, b :: 0 <= a < b < |Unique(s)| ==> Unique(s)[a].0 < Unique(s)[b].0
  {
    if s != [] {
      var p := s[..|s| - 1];
      UniqueKeysIncrease(p);
      var r := Unique(p);
      if s[|s| - 1] !in p {
        var r' := r + [(|s| - 1, s[|s| - 1])];
        assert Unique(s) == r';
        forall a, b | 0 <= a < b < |r'|
          ensures r'[a].0 < r'[b].0
        {
          assert r'[a] == r[a];
          assert r[a].0 < |p|;
          if b < |r| {
            assert r'[b] == r[b];
          }
        }
      } else {
        assert Unique(s) == r;
      }
    }
  }

  /** Every value of `s` is among the retained values. */
  lemma {:induction false} UniqueCovers(s: seq<Role>)
    ensures forall i :: 0 <= i < |s| ==> s[i] in Values(Unique(s))
  {
    if s != [] {
      var p := s[..|s| - 1];
      UniqueCovers(p);
      var r := Unique(p);
      assert forall i :: 0 <= i < |p| ==> s[i] == p[i];
      if s[|s| - 1] !in p {
        assert Values(Unique(s)) == Values(r) + [s[|s| - 1]];
      }
    }
  }

  /** Every first occurrence of `s` is retained, under its own key. */
  lemma UniqueKeepsFirstOccurrences(s: seq<Role>)
    ensures forall i :: 0 <= i < |s| && FirstAt(s, i) ==> (i, s[i]) in Unique(s)
  {
    var r := Unique(s);
    UniqueCovers(s);
    forall i | 0 <= i < |s| && FirstAt(s, i)
      ensures (i, s[i]) in r
    {
      assert s[i] in Values(r);
      var k :| 0 <= k < |r| && Values(r)[k] == s[i];
      assert FirstAt(s, r[k].0);
      assert r[k] == (i, s[i]);
    }
  }

  /** The retained values are pairwise distinct. */
  lemma UniqueDistinct(s: seq<Role>)
    ensures Distinct(Values(Unique(s)))
  {
    var r := Unique(s);
    var v := Values(r);
    UniqueKeysIncrease(s);
    forall a, b | 0 <= a < b < |v|
      ensures v[a] != v[b]
    {
      assert r[a].0 < r[b].0;
      assert FirstAt(s, r[b].0);
    }
  }

  /** The retained values are exactly the values of `s`. */
  lemma UniqueSameElements(s: seq<Role>)
    ensures forall x :: x in Values(Unique(s)) <==> x in s
  {
    var r := Unique(s);
    var v := Values(r);
    UniqueCovers(s);
    forall x | x in s
      ensures x in v
    {
      var i :| 0 <= i < |s| && s[i] == x;
      assert s[i] in v;
    }
  }

  /** On a list without duplicates `array_unique` keeps every element
      under its own key. */
  lemma {:induction false} UniqueOfDistinct(s: seq<Role>)
    requires Distinct(s)
    ensures Unique(s) == seq(|s|, i requires 0 <= i < |s| => (i, s[i]))
  {
    if s != [] {
      var p := s[..|s| - 1];
      assert Distinct(p);
      UniqueOfDistinct(p);
      assert s[|s| - 1] !in p;
    }
  }

  /** De-duplicating twice changes nothing more than de-duplicating once. */
  lemma UniqueIdempotent(s: seq<Role>)
    ensures Values(Unique(Values(Unique(s)))) == Values(Unique(s))
  {
    var v := Values(Unique(s));
    UniqueDistinct(s);
    UniqueOfDistinct(v);
  }

  /** A concrete instance: duplicates after the first are dropped and the
      surviving keys are the original positions. */
  lemma UniqueExample()
    ensures Unique(["ROLE_ADMIN", "ROLE_ADMIN", "ROLE_EDITOR"]) == [(0, "ROLE_ADMIN"), (2, "ROLE_EDITOR")]
  {
    var s: seq<Role> := ["ROLE_ADMIN", "ROLE_ADMIN", "ROLE_EDITOR"];
    assert s[..2] == ["ROLE_ADMIN", "ROLE_ADMIN"];
    assert s[..2][..1] == ["ROLE_ADMIN"];
    assert s[..2][..1][..0] == [];
    assert Unique(["ROLE_ADMIN"]) == [(0, "ROLE_ADMIN")];
    assert "ROLE_ADMIN" in s[..2][..1];
    assert Unique(s[..2]) == [(0, "ROLE_ADMIN")];
    assert "ROLE_EDITOR" !in s[..2];
  }
}
