/** Merging two nodes found at the same position (array elements). The merge
    is left-biased: `dest` survives and absorbs what `src` adds. */
module Merging {
  import opened Results
  import opened StructTypes

  /** The merge of two nodes of the same kind. Only maps change: they gain the
      fields of `src` they lack, and fields present in both are merged when
      their kinds agree and otherwise left as in `dest`. */
  function MergeFields(dest: Node, src: Node): (r: Node)
    requires dest.kind == src.kind
    ensures r.parent == dest.parent && r.name == dest.name && r.kind == dest.kind
    ensures dest.kind != MapKind ==> r == dest
    ensures dest.kind == MapKind ==> r.fields.Keys == dest.fields.Keys + src.fields.Keys
    ensures dest.kind == MapKind ==>
              forall k :: k in src.fields && k !in dest.fields ==> r.fields[k] == src.fields[k]
    ensures forall k :: k in dest.fields && k !in src.fields ==> r.fields[k] == dest.fields[k]
    ensures forall k :: k in dest.fields && k in src.fields && dest.fields[k].kind != src.fields[k].kind ==>
              r.fields[k] == dest.fields[k]
    ensures forall k :: k in dest.fields ==> r.fields[k].kind == dest.fields[k].kind
    decreases src
  {
    if dest.kind != MapKind then dest
    else
      var merged := map k | k in dest.fields.Keys + src.fields.Keys ::
        if k !in dest.fields then src.fields[k]
        else if k !in src.fields || dest.fields[k].kind != src.fields[k].kind then dest.fields[k]
        else MergeFields(dest.fields[k], src.fields[k]);
      Node(dest.parent, dest.name, dest.kind, merged)
  }

  /** Merge with the top-level kind check: different kinds are a type error
      at dest's position, with no numeric promotion between int and float64. */
  function Merge(dest: Node, src: Node): (r: Result<Node>)
    ensures r.Err? <==> dest.kind != src.kind
    ensures r.Err? ==> r.fault == TypeError(Identity(dest))
    ensures r.Ok? ==> r.value == MergeFields(dest, src)
    ensures r.Ok? ==> r.value.kind == dest.kind && Identity(r.value) == Identity(dest)
    ensures r.Ok? && dest.kind != MapKind ==> r.value == dest
  {
    if dest.kind != src.kind then Err(TypeError(dest.parent + dest.name))
    else Ok(MergeFields(dest, src))
  }

  /** Two fields present in both maps with the same kind are merged recursively. */
  lemma MergeSameKindField(dest: Node, src: Node, k: string)
    requires dest.kind == src.kind == MapKind
    requires k in dest.fields && k in src.fields && dest.fields[k].kind == src.fields[k].kind
    ensures MergeFields(dest, src).fields[k] == MergeFields(dest.fields[k], src.fields[k])
  {
  }

  /** Merging a node with itself changes nothing. */
  lemma {:induction false} MergeSelf(t: Node)
    ensures MergeFields(t, t) == t
    decreases t
  {
    if t.kind == MapKind {
      var r := MergeFields(t, t);
      forall k | k in t.fields ensures r.fields[k] == t.fields[k] {
        MergeSelf(t.fields[k]);
      }
      assert r.fields == t.fields;
    }
  }

  /** Merging the same source a second time adds nothing. */
  lemma {:induction false} MergeAbsorbs(dest: Node, src: Node)
    requires dest.kind == src.kind
    ensures MergeFields(MergeFields(dest, src), src) == MergeFields(dest, src)
    decreases src
  {
    var r := MergeFields(dest, src);
    if dest.kind == MapKind {
      var rr := MergeFields(r, src);
      forall k | k in r.fields ensures rr.fields[k] == r.fields[k] {
        if k in src.fields && r.fields[k].kind == src.fields[k].kind {
          if k !in dest.fields {
            MergeSelf(src.fields[k]);
          } else {
            MergeAbsorbs(dest.fields[k], src.fields[k]);
          }
        }
      }
      assert rr.fields == r.fields;
    }
  }

  /** Merging keeps the shape invariant. */
  lemma {:induction false} MergeKeepsWellFormed(dest: Node, src: Node)
    requires dest.kind == src.kind && WellFormed(dest) && WellFormed(src)
    ensures WellFormed(MergeFields(dest, src))
    decreases src
  {
    var r := MergeFields(dest, src);
    forall k | k in r.fields ensures WellFormed(r.fields[k]) {
      if k in dest.fields && k in src.fields && dest.fields[k].kind == src.fields[k].kind {
        MergeKeepsWellFormed(dest.fields[k], src.fields[k]);
      }
    }
  }

  /** Merging two nodes at the same position keeps the position invariant. */
  lemma {:induction false} MergeKeepsPositioned(dest: Node, src: Node)
    requires dest.kind == src.kind && Identity(dest) == Identity(src)
    requires Positioned(dest) && Positioned(src)
    ensures Positioned(MergeFields(dest, src))
    decreases src
  {
    var r := MergeFields(dest, src);
    if dest.kind == MapKind {
      forall k | k in r.fields
        ensures Positioned(r.fields[k]) && r.fields[k].parent == Identity(r) && r.fields[k].name == k
      {
        if k in dest.fields && k in src.fields && dest.fields[k].kind == src.fields[k].kind {
          MergeKeepsPositioned(dest.fields[k], src.fields[k]);
        }
      }
    }
  }
}
