/** Rendering the inferred tree as Go source: type expressions, field lists
    and top-level struct declarations. */
module Rendering {
  import opened Names
  import opened Ordering
  import opened StructTypes

  /** One field line: exported name, pointer mark, type expression and JSON tag. */
  datatype Field = Field(name: string, star: bool, goType: string, tag: string)

  /** One top-level declaration `type <name> struct { <fields> }`. */
  datatype Decl = Decl(name: string, fields: seq<Field>)

  /** The Go type expression of a node. Named mode refers to a map by its
      identity; anonymous mode spells the struct out inline. */
  function GoType(n: Node, anonymous: bool): (t: string)
    requires WellFormed(n)
    ensures IsScalar(n.kind) ==> t == KindName(n.kind)
    ensures n.kind == MapKind && !anonymous ==> t == Identity(n)
    ensures n.kind == MapKind && anonymous ==> |t| >= 10 && t[..9] == "struct {\n" && t[|t| - 1] == '}'
    ensures n.kind == ArrayKind ==> |t| >= 2 && t[..2] == "[]"
    decreases n, 1
  {
    if anonymous && n.kind == MapKind then "struct {\n" + FieldsText(FieldList(n, anonymous)) + "}"
    else
      match n.kind
      case MapKind => Identity(n)
      case ArrayKind => "[]" + GoType(n.fields[ArrayKey], anonymous)
      case _ => KindName(n.kind)
  }

  /** The fields of a node, one per child, in ascending key order. */
  function FieldList(n: Node, anonymous: bool): (fs: seq<Field>)
    requires WellFormed(n)
    ensures |fs| == |n.fields|
    decreases n, 0, |n.fields| + 1
  {
    FieldsFor(n, SortedKeys(n.fields.Keys), anonymous)
  }

  /** The field list names every child exactly once, in strictly ascending
      order. */
  lemma FieldListOrder(n: Node, anonymous: bool)
    requires WellFormed(n)
    ensures var fs := FieldList(n, anonymous);
            && (forall i, j :: 0 <= i < j < |fs| ==> Less(fs[i].name, fs[j].name))
            && (set i | 0 <= i < |fs| :: fs[i].name) == n.fields.Keys
  {
    var ks := SortedKeys(n.fields.Keys);
    SortedFieldsCover(n, ks, FieldList(n, anonymous), anonymous);
  }

  /** Each field names a child and has that child's type expression; it is a
      pointer exactly when the child is a map, in which case named mode gives
      the child's identity as its type; its tag is the lower-cased field name. */
  lemma FieldListFields(n: Node, anonymous: bool)
    requires WellFormed(n)
    ensures var fs := FieldList(n, anonymous);
            forall i :: 0 <= i < |fs| ==>
              && fs[i].name in n.fields
              && (fs[i].star <==> n.fields[fs[i].name].kind == MapKind)
              && fs[i].tag == ToLower(fs[i].name)
              && fs[i].goType == GoType(n.fields[fs[i].name], anonymous)
              && (!anonymous && fs[i].star ==> fs[i].goType == Identity(n.fields[fs[i].name]))
  {
  }

  lemma SortedFieldsCover(n: Node, ks: seq<string>, fs: seq<Field>, anonymous: bool)
    requires WellFormed(n)
    requires |ks| == |n.fields| && (forall k :: k in ks <==> k in n.fields) && StrictlySorted(ks)
    requires |fs| == |ks| && forall i :: 0 <= i < |ks| ==> fs[i].name == ks[i]
    ensures forall i, j :: 0 <= i < j < |fs| ==> Less(fs[i].name, fs[j].name)
    ensures (set i | 0 <= i < |fs| :: fs[i].name) == n.fields.Keys
  {
    forall k | k in n.fields ensures exists i :: 0 <= i < |fs| && fs[i].name == k {
      var i :| 0 <= i < |ks| && ks[i] == k;
      assert fs[i].name == k;
    }
  }

  /** The field lines for the keys `ks` of `n`, in the order given. */
  function FieldsFor(n: Node, ks: seq<string>, anonymous: bool): (fs: seq<Field>)
    requires WellFormed(n)
    requires forall i :: 0 <= i < |ks| ==> ks[i] in n.fields
    ensures |fs| == |ks|
    ensures forall i :: 0 <= i < |ks| ==>
              && fs[i].name == ks[i]
              && (fs[i].star <==> n.fields[ks[i]].kind == MapKind)
              && fs[i].tag == ToLower(ks[i])
              && fs[i].goType == GoType(n.fields[ks[i]], anonymous)
              && (!anonymous && n.fields[ks[i]].kind == MapKind ==> fs[i].goType == Identity(n.fields[ks[i]]))
    decreases n, 0, |ks|
  {
    if ks == [] then []
    else
      var child := n.fields[ks[0]];
      var f := Field(ks[0], child.kind == MapKind, GoType(child, anonymous), ToLower(ks[0]));
      [f] + FieldsFor(n, ks[1..], anonymous)
  }

  /** One field line: indented name, optional `*`, type expression, JSON tag. */
  function FieldText(f: Field): (t: string)
    ensures var head := "    " + f.name + " " + (if f.star then "*" else "");
            var tail := " `json:\"" + f.tag + "\"`\n";
            && |t| == |head| + |f.goType| + |tail|
            && t[..|head|] == head
            && t[|head|..|head| + |f.goType|] == f.goType
            && t[|head| + |f.goType|..] == tail
  {
    "    " + f.name + " " + (if f.star then "*" else "") + f.goType + " `json:\"" + f.tag + "\"`\n"
  }

  /** The field lines of `fs`, one after another. */
  function FieldsText(fs: seq<Field>): (t: string)
    ensures t == "" <==> fs == []
    ensures |fs| == 1 ==> t == FieldText(fs[0])
  {
    if fs == [] then "" else FieldText(fs[0]) + FieldsText(fs[1..])
  }

  /** A top-level declaration: header line, field lines, closing brace line. */
  function DeclText(d: Decl): (t: string)
    ensures var head := "type " + d.name + " struct {\n";
            var body := FieldsText(d.fields);
            && |t| == |head| + |body| + 2
            && t[..|head|] == head
            && t[|head|..|head| + |body|] == body
            && t[|head| + |body|..] == "}\n"
  {
    "type " + d.name + " struct {\n" + FieldsText(d.fields) + "}\n"
  }

  /** Concatenation of `parts` with `sep` between neighbours. */
  function Join(parts: seq<string>, sep: string): (r: string)
    ensures parts == [] ==> r == ""
    ensures |parts| == 1 ==> r == parts[0]
    ensures |parts| > 0 ==> |r| >= |parts[0]| && r[..|parts[0]|] == parts[0]
  {
    if parts == [] then ""
    else if |parts| == 1 then parts[0]
    else parts[0] + sep + Join(parts[1..], sep)
  }

  /** Appending a part adds the separator and the part at the end. */
  lemma {:induction false} JoinAppend(parts: seq<string>, p: string, sep: string)
    requires parts != []
    ensures Join(parts + [p], sep) == Join(parts, sep) + sep + p
    decreases |parts|
  {
    var ps := parts + [p];
    assert ps[0] == parts[0];
    if |parts| > 1 {
      assert ps[1..] == parts[1..] + [p];
      JoinAppend(parts[1..], p, sep);
    } else {
      assert ps[1..] == [p];
    }
  }

  /** The text of a field list is the texts of its parts, concatenated. */
  lemma {:induction false} FieldsTextAppend(a: seq<Field>, b: seq<Field>)
    ensures FieldsText(a + b) == FieldsText(a) + FieldsText(b)
    decreases |a|
  {
    if a == [] {
      assert a + b == b;
    } else {
      assert (a + b)[0] == a[0];
      assert (a + b)[1..] == a[1..] + b;
      FieldsTextAppend(a[1..], b);
    }
  }

  /** The node whose declarations are emitted: a bare top-level array (no
      parent path) stands for its element type, repeatedly. */
  function Unwrap(n: Node): (r: Node)
    requires WellFormed(n)
    ensures WellFormed(r)
    ensures !(r.parent == "" && r.kind == ArrayKind)
    ensures !(n.parent == "" && n.kind == ArrayKind) ==> r == n
    ensures n.parent == "" && n.kind == ArrayKind ==> r == Unwrap(n.fields[ArrayKey])
  {
    if n.parent == "" && n.kind == ArrayKind then Unwrap(n.fields[ArrayKey]) else n
  }

  /** Identities of the map nodes reachable from `n` through map fields only. */
  ghost function MapIdentities(n: Node): set<string>
    decreases n, 1
  {
    if n.kind != MapKind then {} else {Identity(n)} + ChildIdentities(n)
  }

  ghost function ChildIdentities(n: Node): set<string>
    decreases n, 0
  {
    set k, x | k in n.fields && x in MapIdentities(n.fields[k]) :: x
  }

  /** The map nodes reachable from `n` through map fields only. */
  ghost function MapNodes(n: Node): set<Node>
    decreases n, 1
  {
    if n.kind != MapKind then {} else {n} + ChildNodes(n)
  }

  ghost function ChildNodes(n: Node): set<Node>
    decreases n, 0
  {
    set k, x | k in n.fields && x in MapNodes(n.fields[k]) :: x
  }

  /** The declarations that the well-formed nodes of `ns` give. */
  ghost function DeclsOf(ns: set<Node>, anonymous: bool): set<Decl>
  {
    set m | m in ns && WellFormed(m) :: DeclOf(m, anonymous)
  }

  /** Every declaration of `ds` is the declaration of a node in `ns`. */
  ghost predicate DeclaredFrom(ds: seq<Decl>, ns: set<Node>, anonymous: bool)
  {
    forall i :: 0 <= i < |ds| ==> ds[i] in DeclsOf(ns, anonymous)
  }

  function DeclNames(ds: seq<Decl>): set<string>
  {
    set i | 0 <= i < |ds| :: ds[i].name
  }

  /** The type names that pointer fields of `ds` refer to. */
  function Refs(ds: seq<Decl>): set<string>
  {
    set i, f | 0 <= i < |ds| && f in ds[i].fields && f.star :: f.goType
  }

  predicate DistinctNames(ds: seq<Decl>)
  {
    forall i, j :: 0 <= i < j < |ds| ==> ds[i].name != ds[j].name
  }

  /** The declaration of a map node. */
  function DeclOf(n: Node, anonymous: bool): Decl
    requires WellFormed(n)
  {
    Decl(Identity(n), FieldList(n, anonymous))
  }

  /** The declarations collected from `st` given the identities already
      `visited`, with the visited set afterwards. A map node not yet visited is
      marked, then (in named mode) its map children are collected in key order,
      and its own declaration comes last. */
  function Collect(st: Node, anonymous: bool, visited: set<string>): (res: (set<string>, seq<Decl>))
    requires WellFormed(st)
    ensures res.0 == visited + DeclNames(res.1)
    ensures DistinctNames(res.1) && DeclNames(res.1) !! visited
    ensures DeclNames(res.1) <= MapIdentities(st)
    ensures DeclaredFrom(res.1, MapNodes(st), anonymous)
    ensures !anonymous ==> Refs(res.1) <= res.0
    ensures anonymous ==> |res.1| <= 1
    ensures st.kind == MapKind && Identity(st) !in visited ==>
              |res.1| > 0 && res.1[|res.1| - 1] == DeclOf(st, anonymous)
    ensures st.kind != MapKind || Identity(st) in visited ==> res == (visited, [])
    decreases st, 1
  {
    if st.kind != MapKind then (visited, [])
    else
      var key := Identity(st);
      if key in visited then (visited, [])
      else
        var visited1 := visited + {key};
        var (visited2, children) :=
          if anonymous then (visited1, []) else CollectChildren(st, SortedKeys(st.fields.Keys), visited1);
        var own := DeclOf(st, anonymous);
        OwnDeclLast(st, anonymous, visited, visited2, children);
        OwnDeclaredFrom(st, anonymous, children);
        (visited2, children + [own])
  }

  /** Collects the children of `st` under the keys `ks`, in order, in named mode. */
  function CollectChildren(st: Node, ks: seq<string>, visited: set<string>): (res: (set<string>, seq<Decl>))
    requires WellFormed(st)
    requires forall k :: k in ks ==> k in st.fields
    ensures res.0 == visited + DeclNames(res.1)
    ensures DistinctNames(res.1) && DeclNames(res.1) !! visited
    ensures DeclNames(res.1) <= ChildIdentities(st)
    ensures DeclaredFrom(res.1, ChildNodes(st), false)
    ensures Refs(res.1) <= res.0
    ensures forall k :: k in ks && st.fields[k].kind == MapKind ==> Identity(st.fields[k]) in res.0
    decreases st, 0, |ks|
  {
    if ks == [] then (visited, [])
    else
      var (visited1, first) := Collect(st.fields[ks[0]], false, visited);
      var (visited2, rest) := CollectChildren(st, ks[1..], visited1);
      DeclsAppend(first, rest);
      ChildNodesCover(st, ks[0]);
      DeclaredFromWiden(first, MapNodes(st.fields[ks[0]]), ChildNodes(st), false);
      DeclaredFromAppend(first, rest, ChildNodes(st), false);
      (visited2, first + rest)
  }

  lemma ChildNodesCover(st: Node, k: string)
    requires k in st.fields
    ensures MapNodes(st.fields[k]) <= ChildNodes(st)
  {
  }

  lemma DeclaredFromWiden(ds: seq<Decl>, ns: set<Node>, ns': set<Node>, anonymous: bool)
    requires DeclaredFrom(ds, ns, anonymous) && ns <= ns'
    ensures DeclaredFrom(ds, ns', anonymous)
  {
    forall i | 0 <= i < |ds| ensures ds[i] in DeclsOf(ns', anonymous) {
      var m :| m in ns && WellFormed(m) && ds[i] == DeclOf(m, anonymous);
      assert m in ns';
    }
  }

  lemma DeclaredFromAppend(a: seq<Decl>, b: seq<Decl>, ns: set<Node>, anonymous: bool)
    requires DeclaredFrom(a, ns, anonymous) && DeclaredFrom(b, ns, anonymous)
    ensures DeclaredFrom(a + b, ns, anonymous)
  {
    forall i | 0 <= i < |a + b| ensures (a + b)[i] in DeclsOf(ns, anonymous) {
      if i >= |a| { assert (a + b)[i] == b[i - |a|]; }
    }
  }

  /** A map node's children, then its own declaration, all come from nodes
      reachable from it through map fields. */
  lemma OwnDeclaredFrom(st: Node, anonymous: bool, children: seq<Decl>)
    requires WellFormed(st) && st.kind == MapKind
    requires anonymous ==> children == []
    requires !anonymous ==> DeclaredFrom(children, ChildNodes(st), false)
    ensures DeclaredFrom(children + [DeclOf(st, anonymous)], MapNodes(st), anonymous)
  {
    var own := DeclOf(st, anonymous);
    assert st in MapNodes(st);
    assert own in DeclsOf(MapNodes(st), anonymous);
    assert DeclaredFrom([own], MapNodes(st), anonymous);
    if !anonymous {
      DeclaredFromWiden(children, ChildNodes(st), MapNodes(st), false);
    }
    DeclaredFromAppend(children, [own], MapNodes(st), anonymous);
  }

  /** The facts Collect promises, for a map node declared after its children. */
  lemma OwnDeclLast(st: Node, anonymous: bool, visited: set<string>, visited2: set<string>, children: seq<Decl>)
    requires WellFormed(st) && st.kind == MapKind && Identity(st) !in visited
    requires anonymous ==> visited2 == visited + {Identity(st)} && children == []
    requires visited2 == visited + {Identity(st)} + DeclNames(children)
    requires DistinctNames(children) && DeclNames(children) !! visited + {Identity(st)}
    requires DeclNames(children) <= ChildIdentities(st)
    requires !anonymous ==> Refs(children) <= visited2
    requires !anonymous ==>
               forall k :: k in st.fields && st.fields[k].kind == MapKind ==> Identity(st.fields[k]) in visited2
    ensures var ds := children + [DeclOf(st, anonymous)];
            && visited2 == visited + DeclNames(ds)
            && DistinctNames(ds) && DeclNames(ds) !! visited
            && DeclNames(ds) <= MapIdentities(st)
            && (!anonymous ==> Refs(ds) <= visited2)
            && (anonymous ==> |ds| <= 1)
  {
    var own := DeclOf(st, anonymous);
    DeclsAppend(children, [own]);
    assert [own][0] == own;
    assert DeclNames([own]) == {Identity(st)};
    assert Identity(st) in MapIdentities(st);
    if !anonymous {
      OwnRefs(st, visited2);
    }
  }

  /** A struct's pointer fields refer to its map children by identity. */
  lemma OwnRefs(st: Node, visited: set<string>)
    requires WellFormed(st)
    requires forall k :: k in st.fields && st.fields[k].kind == MapKind ==> Identity(st.fields[k]) in visited
    ensures Refs([DeclOf(st, false)]) <= visited
  {
    var own := DeclOf(st, false);
    RefsSingle(own);
    StarFieldsRefer(st);
  }

  lemma RefsSingle(d: Decl)
    ensures Refs([d]) == set f | f in d.fields && f.star :: f.goType
  {
    assert [d][0] == d;
  }

  /** In named mode a pointer field's type is its map child's identity. */
  lemma StarFieldsRefer(st: Node)
    requires WellFormed(st)
    ensures forall f :: f in FieldList(st, false) && f.star ==>
              f.name in st.fields && st.fields[f.name].kind == MapKind && f.goType == Identity(st.fields[f.name])
  {
    var fs := FieldList(st, false);
    FieldListFields(st, false);
    forall f | f in fs && f.star
      ensures f.name in st.fields && st.fields[f.name].kind == MapKind && f.goType == Identity(st.fields[f.name])
    {
      var j :| 0 <= j < |fs| && fs[j] == f;
    }
  }

  lemma DeclsAppend(a: seq<Decl>, b: seq<Decl>)
    ensures DeclNames(a + b) == DeclNames(a) + DeclNames(b)
    ensures Refs(a + b) == Refs(a) + Refs(b)
    ensures DistinctNames(a) && DistinctNames(b) && DeclNames(a) !! DeclNames(b) ==> DistinctNames(a + b)
  {
    var ab := a + b;
    forall x | x in DeclNames(ab) ensures x in DeclNames(a) + DeclNames(b) {
      var i :| 0 <= i < |ab| && ab[i].name == x;
      if i >= |a| { assert ab[i] == b[i - |a|]; }
    }
    forall x | x in DeclNames(b) ensures x in DeclNames(ab) {
      var i :| 0 <= i < |b| && b[i].name == x;
      assert ab[i + |a|] == b[i];
    }
    forall x | x in DeclNames(a) ensures x in DeclNames(ab) {
      var i :| 0 <= i < |a| && a[i].name == x;
      assert ab[i] == a[i];
    }
    forall x | x in Refs(ab) ensures x in Refs(a) + Refs(b) {
      var i, f :| 0 <= i < |ab| && f in ab[i].fields && f.star && f.goType == x;
      if i >= |a| { assert ab[i] == b[i - |a|]; }
    }
    forall x | x in Refs(b) ensures x in Refs(ab) {
      var i, f :| 0 <= i < |b| && f in b[i].fields && f.star && f.goType == x;
      assert ab[i + |a|] == b[i];
    }
    forall x | x in Refs(a) ensures x in Refs(ab) {
      var i, f :| 0 <= i < |a| && f in a[i].fields && f.star && f.goType == x;
      assert ab[i] == a[i];
    }
    if DistinctNames(a) && DistinctNames(b) && DeclNames(a) !! DeclNames(b) {
      forall i, j | 0 <= i < j < |ab| ensures ab[i].name != ab[j].name {
        if j < |a| {
        } else if i >= |a| {
          assert ab[i] == b[i - |a|] && ab[j] == b[j - |a|];
        } else {
          assert ab[i].name in DeclNames(a);
          assert ab[j] == b[j - |a|];
          assert ab[j].name in DeclNames(b);
        }
      }
    }
  }

  /** All declarations for a tree: those collected from its unwrapped root
      with nothing visited yet. */
  function Declarations(n: Node, anonymous: bool): (ds: seq<Decl>)
    requires WellFormed(n)
    ensures DistinctNames(ds)
    ensures DeclNames(ds) <= MapIdentities(Unwrap(n))
    ensures DeclaredFrom(ds, MapNodes(Unwrap(n)), anonymous)
    ensures !anonymous ==> Refs(ds) <= DeclNames(ds)
    ensures anonymous ==> |ds| <= 1
    ensures |ds| > 0 <==> Unwrap(n).kind == MapKind
    ensures |ds| > 0 ==> ds[|ds| - 1] == DeclOf(Unwrap(n), anonymous)
  {
    Collect(Unwrap(n), anonymous, {}).1
  }

  /** The text of each declaration, in order. */
  function DeclTexts(ds: seq<Decl>): (ts: seq<string>)
    ensures |ts| == |ds|
    ensures forall i :: 0 <= i < |ds| ==> ts[i] == DeclText(ds[i])
  {
    if ds == [] then [] else [DeclText(ds[0])] + DeclTexts(ds[1..])
  }

  /** The generated source: the declarations separated by blank lines. A root
      array without a parent path is rendered as its element. */
  function GenGoStructs(n: Node, anonymous: bool): (r: string)
    requires WellFormed(n)
    ensures r == Join(DeclTexts(Declarations(n, anonymous)), "\n")
    ensures Unwrap(n).kind != MapKind ==> r == ""
  {
    if n.parent == "" && n.kind == ArrayKind then GenGoStructs(n.fields[ArrayKey], anonymous)
    else Join(DeclTexts(Collect(n, anonymous, {}).1), "\n")
  }

  /** Number of array layers around a node's innermost element type. */
  function ArrayDepth(n: Node): nat
    requires WellFormed(n)
  {
    if n.kind == ArrayKind then 1 + ArrayDepth(n.fields[ArrayKey]) else 0
  }

  /** The innermost element type under all array layers. */
  function Innermost(n: Node): (e: Node)
    requires WellFormed(n)
    ensures WellFormed(e) && e.kind != ArrayKind
  {
    if n.kind == ArrayKind then Innermost(n.fields[ArrayKey]) else n
  }

  function Repeat(s: string, count: nat): string
  {
    if count == 0 then "" else s + Repeat(s, count - 1)
  }

  /** A type expression is one `[]` per array layer followed by the innermost
      type: for a map, its identity in named mode or its inline struct in
      anonymous mode; otherwise its kind name. */
  lemma {:induction false} GoTypeShape(n: Node, anonymous: bool)
    requires WellFormed(n)
    ensures GoType(n, anonymous) == Repeat("[]", ArrayDepth(n)) + GoType(Innermost(n), anonymous)
    ensures var e := Innermost(n);
            && (e.kind == MapKind && !anonymous ==> GoType(e, anonymous) == Identity(e))
            && (e.kind == MapKind && anonymous ==>
                  GoType(e, anonymous) == "struct {\n" + FieldsText(FieldList(e, anonymous)) + "}")
            && (e.kind != MapKind ==> GoType(e, anonymous) == KindName(e.kind))
  {
    if n.kind == ArrayKind {
      var e := n.fields[ArrayKey];
      GoTypeShape(e, anonymous);
      ArrayLayer(n, anonymous);
      PrependLayer(GoType(n, anonymous), GoType(e, anonymous), Repeat("[]", ArrayDepth(e)),
                   GoType(Innermost(e), anonymous));
    }
  }

  /** Without a map under its array layers a node has the same type expression
      in both modes. */
  lemma GoTypeModesAgree(n: Node)
    requires WellFormed(n) && Innermost(n).kind != MapKind
    ensures GoType(n, true) == GoType(n, false)
  {
    GoTypeShape(n, true);
    GoTypeShape(n, false);
  }

  lemma PrependLayer(t: string, te: string, layers: string, inner: string)
    requires t == "[]" + te && te == layers + inner
    ensures t == ("[]" + layers) + inner
  {
  }

  /** One array layer adds `[]` in front of its element's type expression. */
  lemma ArrayLayer(n: Node, anonymous: bool)
    requires WellFormed(n) && n.kind == ArrayKind
    ensures GoType(n, anonymous) == "[]" + GoType(n.fields[ArrayKey], anonymous)
    ensures Innermost(n) == Innermost(n.fields[ArrayKey])
    ensures Repeat("[]", ArrayDepth(n)) == "[]" + Repeat("[]", ArrayDepth(n.fields[ArrayKey]))
  {
  }

  /** A detected top-level array with a name has a positioned element, so it
      is unwrapped exactly once: its declarations are its element's. */
  lemma UnwrapNamedRoot(n: Node, anonymous: bool)
    requires WellFormed(n) && Positioned(n)
    requires n.parent == "" && n.name != "" && n.kind == ArrayKind
    ensures Unwrap(n) == n.fields[ArrayKey]
    ensures Declarations(n, anonymous) == Declarations(n.fields[ArrayKey], anonymous)
    ensures GenGoStructs(n, anonymous) == GenGoStructs(n.fields[ArrayKey], anonymous)
  {
    var e := n.fields[ArrayKey];
    assert e == Placeholder || e.parent == n.name;
    assert Unwrap(e) == e;
  }
}
