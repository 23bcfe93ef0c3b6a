/** The profile-name extraction: decode every listed full name and drop the
    excluded ones. Percent-decoding (`decodeURIComponent`) is the parameter
    `decode`, about which nothing is assumed. */
module ProfileNames {
  import opened Shapes

  /** One item of the metadata listing. */
  datatype MetadataDescriptor = MetadataDescriptor(fullName: string, metadataType: string)

  /** The decoded full names of the listing, position by position. */
  function Decoded(md: seq<MetadataDescriptor>, decode: string -> string): seq<string>
  {
    seq(|md|, i requires 0 <= i < |md| => decode(md[i].fullName))
  }

  /** What the loop has pushed after scanning `names`: the names that are not
      in `excluded`, in their original order. */
  function Retain(names: seq<string>, excluded: seq<string>): seq<string>
    decreases |names|
  {
    if |names| == 0 then []
    else
      var before := Retain(names[..|names| - 1], excluded);
      var name := names[|names| - 1];
      if name in excluded then before else before + [name]
  }

  /** A name is retained exactly when it occurs in the input and is not
      excluded. */
  lemma {:induction false} RetainMembers(names: seq<string>, excluded: seq<string>)
    ensures forall n :: n in Retain(names, excluded) <==> n in names && n !in excluded
    decreases |names|
  {
    if |names| > 0 {
      var prefix := names[..|names| - 1];
      RetainMembers(prefix, excluded);
      assert names == prefix + [names[|names| - 1]];
    }
  }

  /** `extractProfileNamesFromMdt`: a listing that is not an array yields no
      names; otherwise a name is in the result exactly when it is the decoded
      full name of some listed descriptor and is not excluded. */
  function ExtractProfileNames(metadata: Input<MetadataDescriptor>, excluded: seq<string>, decode: string -> string): (names: seq<string>)
    ensures metadata.NotAnArray? ==> names == []
    ensures metadata.JsArray? ==>
      |names| == |metadata.elems| - |ExcludedPositions(Decoded(metadata.elems, decode), excluded)|
    ensures metadata.JsArray? ==>
      forall n :: n in names <==> n in Decoded(metadata.elems, decode) && n !in excluded
  {
    match metadata
    case NotAnArray => []
    case JsArray(md) =>
      RetainMembers(Decoded(md, decode), excluded);
      RetainCount(Decoded(md, decode), excluded);
      Retain(Decoded(md, decode), excluded)
  }

  /** `kept` is the order-preserving selection from `names` that keeps exactly
      the positions whose name is not excluded: `idx` lists the kept positions
      in increasing order, and `kept[k]` is the name at position `idx[k]`. A
      name that occurs twice and is not excluded is kept twice. */
  ghost predicate SelectedBy(kept: seq<string>, names: seq<string>, excluded: seq<string>, idx: seq<int>)
  {
    && |idx| == |kept|
    && (forall k :: 0 <= k < |idx| ==> 0 <= idx[k] < |names| && kept[k] == names[idx[k]])
    && (forall k, l :: 0 <= k < l < |idx| ==> idx[k] < idx[l])
    && (forall i :: 0 <= i < |names| ==> (i in idx <==> names[i] !in excluded))
  }

  /** Appending one name to the input extends a selection by that name's
      position when it is kept, and leaves it alone otherwise. */
  lemma SelectionExtend(kept: seq<string>, names: seq<string>, excluded: seq<string>, idx: seq<int>, x: string)
    requires SelectedBy(kept, names, excluded, idx)
    ensures x in excluded ==> SelectedBy(kept, names + [x], excluded, idx)
    ensures x !in excluded ==> SelectedBy(kept + [x], names + [x], excluded, idx + [|names|])
  {
  }

  /** Dropping the last name of the input: a kept last name is the last
      selected one, and what precedes it is a selection from the prefix. */
  lemma SelectionShrink(kept: seq<string>, names: seq<string>, excluded: seq<string>, idx: seq<int>)
    requires SelectedBy(kept, names, excluded, idx) && |names| > 0
    ensures names[|names| - 1] in excluded ==> SelectedBy(kept, names[..|names| - 1], excluded, idx)
    ensures names[|names| - 1] !in excluded ==>
      && |idx| > 0
      && kept[|kept| - 1] == names[|names| - 1]
      && SelectedBy(kept[..|kept| - 1], names[..|names| - 1], excluded, idx[..|idx| - 1])
  {
  }

  /** The retained names are such a selection; `idx` is its witness. */
  lemma {:induction false} RetainIsSelection(names: seq<string>, excluded: seq<string>) returns (idx: seq<int>)
    ensures SelectedBy(Retain(names, excluded), names, excluded, idx)
    decreases |names|
  {
    if |names| == 0 {
      return [];
    }
    var last := |names| - 1;
    var prefix := names[..last];
    var x := names[last];
    var idx' := RetainIsSelection(prefix, excluded);
    var before := Retain(prefix, excluded);
    SelectionExtend(before, prefix, excluded, idx', x);
    assert prefix + [x] == names;
    if x in excluded {
      idx := idx';
    } else {
      idx := idx' + [last];
    }
  }

  /** The extracted names of an array listing are such a selection of the
      decoded names: order is kept and duplicates are not removed. */
  lemma ExtractIsSelection(md: seq<MetadataDescriptor>, excluded: seq<string>, decode: string -> string) returns (idx: seq<int>)
    ensures SelectedBy(ExtractProfileNames(JsArray(md), excluded, decode), Decoded(md, decode), excluded, idx)
  {
    idx := RetainIsSelection(Decoded(md, decode), excluded);
  }

  /** ... and the only one: any selection of that kind equals the retained names. */
  lemma {:induction false} SelectionIsUnique(kept: seq<string>, names: seq<string>, excluded: seq<string>, idx: seq<int>)
    requires SelectedBy(kept, names, excluded, idx)
    ensures kept == Retain(names, excluded)
    decreases |names|
  {
    if |names| == 0 {
      return;
    }
    var last := |names| - 1;
    var prefix := names[..last];
    SelectionShrink(kept, names, excluded, idx);
    if names[last] in excluded {
      SelectionIsUnique(kept, prefix, excluded, idx);
    } else {
      var top := |kept| - 1;
      SelectionIsUnique(kept[..top], prefix, excluded, idx[..|idx| - 1]);
      assert kept == kept[..top] + [kept[top]];
    }
  }

  /** The positions whose name is excluded. */
  ghost function ExcludedPositions(names: seq<string>, excluded: seq<string>): set<int>
  {
    set i | 0 <= i < |names| && names[i] in excluded
  }

  /** Exactly one name is retained per position that is not excluded. */
  lemma {:induction false} RetainCount(names: seq<string>, excluded: seq<string>)
    ensures |Retain(names, excluded)| == |names| - |ExcludedPositions(names, excluded)|
    decreases |names|
  {
    if |names| == 0 {
      assert ExcludedPositions(names, excluded) == {};
    } else {
      var last := |names| - 1;
      var prefix := names[..last];
      RetainCount(prefix, excluded);
      var before := ExcludedPositions(prefix, excluded);
      if names[last] in excluded {
        assert ExcludedPositions(names, excluded) == before + {last};
      } else {
        assert ExcludedPositions(names, excluded) == before;
      }
    }
  }
}
