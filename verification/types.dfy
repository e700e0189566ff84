/** The inferred type tree: one node per value position. */
module StructTypes {

  /** The closed set of kinds a node can have. */
  datatype Kind = StringKind | IntKind | FloatKind | BoolKind | MapKind | ArrayKind | InterfaceKind

  /** The sentinel field key under which an array keeps its element type. */
  const ArrayKey: string := "0"

  /** The Go spelling of each kind, as stored in the node's type tag. */
  function KindName(k: Kind): string
  {
    match k
    case StringKind => "string"
    case IntKind => "int"
    case FloatKind => "float64"
    case BoolKind => "bool"
    case MapKind => "map"
    case ArrayKind => "array"
    case InterfaceKind => "interface{}"
  }

  /** Distinct kinds have distinct names, so comparing the Go type tags is
      comparing kinds. */
  lemma KindNamesDistinct(k: Kind, k': Kind)
    ensures KindName(k) == KindName(k') <==> k == k'
  {
  }

  predicate IsScalar(k: Kind)
  {
    k != MapKind && k != ArrayKind
  }

  /** A node: its position (`parent` path and own `name`), its kind, and its
      children keyed by exported field name, or by ArrayKey for an array. */
  datatype Node = Node(parent: string, name: string, kind: Kind, fields: map<string, Node>)

  /** The identity that names a map node's declaration. */
  function Identity(n: Node): string
  {
    n.parent + n.name
  }

  /** The element type given to an empty array: no position, kind interface{}. */
  const Placeholder: Node := Node("", "", InterfaceKind, map[])

  /** Shape invariant: scalars have no children, an array has exactly its
      element child, and every child is well formed. */
  predicate WellFormed(n: Node)
  {
    && (IsScalar(n.kind) ==> n.fields == map[])
    && (n.kind == ArrayKind ==> n.fields.Keys == {ArrayKey})
    && forall k :: k in n.fields ==> WellFormed(n.fields[k])
  }

  /** Position invariant: every child's parent path is its parent's identity;
      a map child is named by its key, an array element is nameless (or is the
      empty-array placeholder). */
  predicate Positioned(n: Node)
  {
    forall k :: k in n.fields ==>
      && Positioned(n.fields[k])
      && (n.kind == MapKind ==> n.fields[k].parent == Identity(n) && n.fields[k].name == k)
      && (n.kind == ArrayKind ==>
            n.fields[k] == Placeholder || (n.fields[k].parent == Identity(n) && n.fields[k].name == ""))
  }
}
