/**
 * `extract_metadata`: fold the page's `<meta>` elements, in document order,
 * into a dictionary keyed by `property`, or else by `name`, whose values are
 * the elements' `content` attributes. The same code appears in both request
 * handlers.
 */
module Metadata {

  import opened Wrappers
  import opened Elements
  import opened Http

  /** The key an element is stored under, if any: `property` first, then `name`. */
  function KeyOf(m: Meta): (k: Option<string>)
  {
    if Truthy(m.property) then m.property
    else if Truthy(m.name) then m.name
    else None
  }

  /** One iteration of the loop: store `content` under the element's key. */
  function Store(md: Metadata, m: Meta): (md': Metadata)
  {
    match KeyOf(m)
    case None => md
    case Some(k) => md[k := m.content]
  }

  /** The dictionary the loop has built after visiting all of `metas`. */
  function MetadataOf(metas: seq<Meta>): (md: Metadata)
  {
    if metas == [] then map[] else Store(MetadataOf(metas[..|metas| - 1]), metas[|metas| - 1])
  }

  /** Every key some element of `metas` is stored under. */
  ghost function KeysOf(metas: seq<Meta>): (ks: set<string>)
  {
    set i | 0 <= i < |metas| && KeyOf(metas[i]).Some? :: KeyOf(metas[i]).value
  }

  /** The loop over the meta elements, starting from an empty dictionary. */
  method ExtractMetadata(metas: seq<Meta>) returns (md: Metadata)
    ensures md == MetadataOf(metas)
    ensures md.Keys == KeysOf(metas)
  {
    md := map[];
    for i := 0 to |metas|
      invariant md == MetadataOf(metas[..i])
    {
      assert metas[..i + 1][..i] == metas[..i];
      var m := metas[i];
      if Truthy(m.property) {
        md := md[m.property.value := m.content];
      } else if Truthy(m.name) {
        md := md[m.name.value := m.content];
      }
    }
    assert metas[..|metas|] == metas;
    KeysExact(metas);
  }

  /**
   * Folding a concatenation is the union of the two folds, with the later
   * segment's entries overriding the earlier one's.
   */
  lemma {:induction false} ConcatIsUnion(a: seq<Meta>, b: seq<Meta>)
    ensures MetadataOf(a + b) == MetadataOf(a) + MetadataOf(b)
  {
    if b == [] {
      assert a + b == a;
    } else {
      var b' := b[..|b| - 1];
      var x := b[|b| - 1];
      assert (a + b)[..|a + b| - 1] == a + b';
      ConcatIsUnion(a, b');
      match KeyOf(x)
      case None =>
      case Some(k) =>
        assert (MetadataOf(a) + MetadataOf(b'))[k := x.content]
            == MetadataOf(a) + MetadataOf(b')[k := x.content];
    }
  }

  /** The dictionary has exactly the keys some element is stored under. */
  lemma {:induction false} KeysExact(metas: seq<Meta>)
    ensures MetadataOf(metas).Keys == KeysOf(metas)
  {
    if metas != [] {
      var init := metas[..|metas| - 1];
      var last := metas[|metas| - 1];
      KeysExact(init);
      var ks := KeysOf(metas);
      forall k | k in ks ensures k in MetadataOf(metas) {
        var i :| 0 <= i < |metas| && KeyOf(metas[i]) == Some(k);
        if i < |metas| - 1 {
          assert init[i] == metas[i];
        }
      }
      forall k | k in MetadataOf(metas) ensures k in ks {
        if KeyOf(last) != Some(k) {
          var i :| 0 <= i < |init| && KeyOf(init[i]) == Some(k);
          assert metas[i] == init[i];
        }
      }
    }
  }

  /**
   * Last wins: a key's value is the `content` of the last element stored
   * under that key, absent content included.
   */
  lemma {:induction false} LastWins(metas: seq<Meta>, i: nat)
    requires i < |metas| && KeyOf(metas[i]).Some?
    requires forall j :: i < j < |metas| ==> KeyOf(metas[j]) != KeyOf(metas[i])
    ensures KeyOf(metas[i]).value in MetadataOf(metas)
    ensures MetadataOf(metas)[KeyOf(metas[i]).value] == metas[i].content
  {
    var k := KeyOf(metas[i]).value;
    var head, tail := metas[..i + 1], metas[i + 1..];
    assert metas == head + tail;
    assert head[..i] == metas[..i];
    ConcatIsUnion(head, tail);
    KeysExact(tail);
    assert NotKeyedBy(tail, k) by {
      forall j | 0 <= j < |tail| ensures KeyOf(tail[j]) != Some(k) {
        assert tail[j] == metas[i + 1 + j];
      }
    }
  }

  /** No element of `metas` is stored under `k`. */
  ghost predicate NotKeyedBy(metas: seq<Meta>, k: string)
  {
    forall j :: 0 <= j < |metas| ==> KeyOf(metas[j]) != Some(k)
  }

  /**
   * An element with a non-empty `property` adds `property -> content`,
   * whatever its `name` is, and touches no other key.
   */
  lemma PropertyKeyed(before: seq<Meta>, m: Meta, after: seq<Meta>)
    requires Truthy(m.property)
    ensures m.property.value in MetadataOf(before + [m] + after)
    ensures NotKeyedBy(after, m.property.value) ==>
              MetadataOf(before + [m] + after)[m.property.value] == m.content
    ensures MetadataOf(before + [m] + after) - {m.property.value}
         == MetadataOf(before + after) - {m.property.value}
  {
    Contribution(before, m, after);
  }

  /**
   * An element with an empty or absent `property` and a non-empty `name`
   * adds `name -> content` and touches no other key.
   */
  lemma NameKeyed(before: seq<Meta>, m: Meta, after: seq<Meta>)
    requires !Truthy(m.property) && Truthy(m.name)
    ensures m.name.value in MetadataOf(before + [m] + after)
    ensures NotKeyedBy(after, m.name.value) ==>
              MetadataOf(before + [m] + after)[m.name.value] == m.content
    ensures MetadataOf(before + [m] + after) - {m.name.value}
         == MetadataOf(before + after) - {m.name.value}
  {
    Contribution(before, m, after);
  }

  /** An element with neither a non-empty `property` nor a non-empty `name` is skipped. */
  lemma Unkeyed(before: seq<Meta>, m: Meta, after: seq<Meta>)
    requires !Truthy(m.property) && !Truthy(m.name)
    ensures MetadataOf(before + [m] + after) == MetadataOf(before + after)
  {
    ConcatIsUnion(before + [m], after);
    ConcatIsUnion(before, after);
    assert (before + [m])[..|before|] == before;
  }

  /** What a keyed element contributes, wherever it stands. */
  lemma Contribution(before: seq<Meta>, m: Meta, after: seq<Meta>)
    requires KeyOf(m).Some?
    ensures KeyOf(m).value in MetadataOf(before + [m] + after)
    ensures NotKeyedBy(after, KeyOf(m).value) ==>
              MetadataOf(before + [m] + after)[KeyOf(m).value] == m.content
    ensures MetadataOf(before + [m] + after) - {KeyOf(m).value}
         == MetadataOf(before + after) - {KeyOf(m).value}
  {
    var k := KeyOf(m).value;
    ConcatIsUnion(before + [m], after);
    ConcatIsUnion(before, after);
    assert (before + [m])[..|before|] == before;
    KeysExact(after);
    if NotKeyedBy(after, k) {
      assert k !in KeysOf(after);
    }
    assert (MetadataOf(before)[k := m.content] + MetadataOf(after)) - {k}
        == (MetadataOf(before) + MetadataOf(after)) - {k};
  }

  /**
   * No `og:` prefix filter is applied: any non-empty `property` is a key on
   * its own, and an absent `content` is stored as absent.
   */
  lemma AnyPropertyIsAKey(m: Meta)
    requires Truthy(m.property)
    ensures MetadataOf([m]) == map[m.property.value := m.content]
  {
    assert [m][..0] == [];
  }
}
