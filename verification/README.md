# json2go type inference, modelled in Dafny

json2go turns one decoded JSON value into Go struct declarations. Its core is
`json2go.go`:

- `detectType` walks the decoded value and builds a tree of `StructType`
  nodes, one per value position.
- `mergeStruct` unifies the element types of an array.
- `toExported` turns a JSON key into an exported Go field name.
- `StructType.GoType` renders a node as a Go type expression.
- `StructType.GenGoStructs` renders the struct declarations. In anonymous mode
  it emits one declaration with nested structs inline. In named mode it emits
  one declaration per distinct identity (parent path + name) of a map
  reachable from the root through map fields.

The model is pure and functional:

| module | file | models |
|---|---|---|
| `Results` | results.dfy | the two panics of the code, as `Err` values |
| `Names` | names.dfy | `toExported`, ASCII `strings.ToLower` / `ToUpper` |
| `Ordering` | ordering.dfy | `sort.Strings` as a strict lexicographic order; sorted key lists |
| `JsonValues` | json.dfy | the decoded value (`nil`, `bool`, `float64`, `string`, `[]any`, `map[string]any`) |
| `StructTypes` | types.dfy | the `Type*` constants, `ArrayKey`, the `StructType` record as `Node` |
| `Merging` | merge.dfy | `mergeStruct` |
| `Detection` | detect.dfy | `detectType` |
| `Rendering` | render.dfy | `GoType`, the field lines, `collect` and `GenGoStructs` |
| `Scenarios` | scenarios.dfy | concrete inputs worked through the model |

The Go `Type` string is the enum `Kind`. `KindName` gives back the exact
constant strings. A node is `Node(parent, name, kind, fields)`, where
`Identity(n)` is `parent + name`. Two invariants describe every tree that
detection builds:

- `WellFormed`: scalars have no children, and an array has exactly the child
  `ArrayKey`.
- `Positioned`: every child's parent path is its parent's identity. A map child
  is named by its key. An array element is nameless, or it is the empty-array
  placeholder.

Both panics of the code are `Err` values:

- `EmptyAfterStrip(key)`: `toExported` was given a non-empty key made only of
  underscores, so `s[:1]` slices an empty string.
- `TypeError(path)`: `mergeStruct` was given two kinds that differ.

Where the code does something other than what a reader might expect, the model
follows the code:

- There is no numeric promotion. `[1, 2, 3.5]` is a type error at the array's
  path (`Scenarios.MixedNumbersFail`), because `mergeStruct` panics whenever
  the kind strings differ.
- The struct tag is `strings.ToLower` of the exported field name, not the
  original JSON key. `{"user_id": …}` gets the tag `userid`
  (`Scenarios.UserExample`). `Names.TagIsKeyIff` gives the exact condition for
  the tag to equal the key.
- A field conflict inside merged maps (same field name, different kinds) is not
  an error. The code prints a warning and keeps the first kind
  (`Scenarios.FieldConflictKeepsFirst`). Only a conflict between the merged
  nodes themselves panics.
- In named mode the code never declares the element struct of an array of
  objects. `collect` stops at any non-map node, arrays included, yet `GoType`
  still writes `[]<Parent><Name>` for the field's type. The generated source
  therefore names a type it never declares
  (`Scenarios.ArrayElementStructNotDeclared`). The model's reference-closure
  property (`Rendering.Declarations`) covers pointer fields only, for this
  reason.

## Model

| member | source | states |
|---|---|---|
| Names.ToExported | json2go.go:136-143 | The empty key maps to itself. A key fails exactly when it is non-empty and made only of underscores, and the failure names the key. Otherwise the result has no underscore and is shorter than the key by exactly its number of underscores. It starts with the upper-cased first non-underscore character, followed by the rest of the key with underscores removed. |
| Names.Upper | json2go.go:142 | `strings.ToUpper` on one character changes it exactly when it is an ASCII lower-case letter, into the upper-case letter 32 code points below. |
| Names.Lower | json2go.go:101 | `strings.ToLower` on one character changes it exactly when it is an ASCII upper-case letter, into the lower-case letter 32 code points above. |
| Names.ToLower | json2go.go:101 | Lower-casing keeps the length and lower-cases each character in place. |
| Names.StripUnderscores | json2go.go:141 | `strings.ReplaceAll(s, "_", "")` leaves no underscore and removes exactly as many characters as the key has underscores. |
| Names.StripSkipsLeading | json2go.go:141-142 | The first character left after stripping is the first non-underscore character of the key. If there is none, the key is all underscores and nothing is left. |
| Names.StripNoUnderscore | json2go.go:141 | Stripping a string that has no underscore leaves it unchanged. |
| Names.ToExportedIdempotent | json2go.go:136-143 | Normalising an exported name again gives the same name. |
| Names.TagIsKeyIff | json2go.go:101 | The tag `ToLower(toExported(key))` equals the JSON key exactly when the key has no underscore and no upper-case letter. |
| Names.KeyOfTag | json2go.go:101 | A tag equal to its key forces the key to be underscore-free and lower-case. |
| Names.TagOfLowerKey | json2go.go:101 | A lower-case key without underscores is exported by upper-casing its first letter, and lower-casing that name gives the key back. |
| Ordering.LessTransitive | json2go.go:91 | The order `sort.Strings` uses is transitive. |
| Ordering.LessTotal | json2go.go:91 | Any two different strings are ordered one way or the other. |
| Ordering.LeastExists | json2go.go:87-91 | Every non-empty set of keys has a least key. |
| Ordering.SortedKeys | json2go.go:87-91 | The keys gathered from a map and sorted: each key appears exactly once, and the list is in strictly ascending order. |
| Merging.MergeFields | json2go.go:116-132 | A merge of two nodes of one kind keeps dest's position and kind, and leaves non-maps unchanged. For maps, the keys are the union of both key sets. A key only in src is adopted from src, a key only in dest is kept, and a key whose kinds conflict keeps dest's child. The kind of every dest child is preserved. A key of the same kind on both sides is merged recursively (`Merging.MergeSameKindField`). |
| Merging.MergeSameKindField | json2go.go:122-124 | A field present in both maps with the same kind becomes the recursive merge of dest's child with src's child. |
| Merging.Merge | json2go.go:111-118 | A merge fails exactly when the two kinds differ, with a type error at dest's identity. On success the result has dest's kind and identity, and for non-maps it is dest itself. |
| Merging.MergeSelf | json2go.go:120-131 | Merging a node with itself changes nothing. |
| Merging.MergeAbsorbs | json2go.go:120-131 | Merging the same source twice gives the same result as merging it once. |
| Merging.MergeKeepsWellFormed | json2go.go:120-131 | Merging two well-formed nodes gives a well-formed node. |
| Merging.MergeKeepsPositioned | json2go.go:120-131 | Merging two positioned nodes with the same identity gives a positioned node. |
| Detection.JsonKind | json2go.go:157-192 | The type switch: an object is a map, an array an array, `nil` and any other value `interface{}`, a string a string, a bool a bool. A number is an int exactly when it is integral and within the int64 range, and a float64 otherwise. |
| Detection.Detect | json2go.go:150-194 | The detected node has the value's kind, the given name and parent, and is well formed and positioned. An object's fields are exactly its exported keys. An empty array holds the placeholder element. A non-empty array's element sits at path parent + name with the first element's kind. |
| Detection.FoldElements | json2go.go:176-179 | Merging the remaining elements keeps the element's kind and its position. The accumulated element is the merge destination: every field it already has is kept, with its kind, so earlier elements win conflicts. |
| Detection.ArrayFirstWins | json2go.go:172-179 | The element type of a detected non-empty array keeps every field of the first element's type, with the same kind. |
| Detection.DetectMembers | json2go.go:185-189 | Detecting the members adds exactly their exported keys, each child under its key at the object's path. |
| Detection.DetectOkIff | json2go.go:150-194 | Detection succeeds exactly on detectable values: no key is all underscores, and in every array all elements have the first element's kind. |
| Detection.FoldOkIff | json2go.go:176-179 | The element fold succeeds exactly when every remaining element is detectable with the accumulated kind. |
| Detection.MembersOkIff | json2go.go:185-189 | Member detection succeeds exactly when every remaining key exports and every remaining value is detectable. |
| Detection.ArrayOfCopies | json2go.go:172-179 | An array of equal elements has the type of its first element as its element type. |
| Detection.ArrayOfObjectsKeys | json2go.go:172-179 | In a detected array whose first element is an object, every element is an object. The element type's fields are the union of the exported keys of all elements. |
| Detection.ObjectLastWins | json2go.go:185-189 | Every field of a detected object is an exported key. Its child is the type of the last member whose key exports to that name. |
| Rendering.FieldsFor | json2go.go:93-101 | One field line per key, in order. Its type is the child's type expression in the same mode. The field is a pointer exactly when the child is a map, and its tag is the lower-cased field name. In named mode a map child's type is its identity. |
| Rendering.FieldList | json2go.go:87-101 | A struct has exactly one field line per child. |
| Rendering.FieldListFields | json2go.go:93-101 | Every field line names a child and carries that child's type expression in the same mode. It is a pointer exactly when the child is a map, and its tag is the lower-cased field name. |
| Rendering.FieldListOrder | json2go.go:87-93 | A struct's field lines name each child exactly once, in strictly ascending name order. |
| Rendering.StarFieldsRefer | json2go.go:96-101 | In named mode every pointer field has the identity of a map child as its type. |
| Rendering.GoType | json2go.go:28-58 | A scalar's type is its kind name. In named mode a map's type is its identity. In anonymous mode a map's type is an inline struct: it starts with `struct {` and a newline and ends with `}`. An array's type starts with `[]`. |
| Rendering.GoTypeShape | json2go.go:28-58 | In either mode a type expression is one `[]` per array layer, then the innermost node's type. For a map that is its identity in named mode, or `struct {`, its field lines and `}` in anonymous mode. For anything else it is the kind name. |
| Rendering.GoTypeModesAgree | json2go.go:28-58 | A node with no map under its array layers has the same type expression in both modes. |
| Rendering.FieldText | json2go.go:101 | A field line is four spaces, the name, a space, `*` for a pointer, the type expression, then `` `json:"<tag>"` `` and a newline. |
| Rendering.FieldsText | json2go.go:93-102 | The field lines are empty exactly when there are no fields, and a single field gives exactly its field line. Together with `FieldsTextAppend` this makes the text every field's line, in order. |
| Rendering.FieldsTextAppend | json2go.go:93-102 | The text of two field lists in a row is the text of the first followed by the text of the second. |
| Rendering.DeclText | json2go.go:84-104 | A declaration is `type <name> struct {` and a newline, then the field lines, then `}` and a newline. |
| Rendering.DeclTexts | json2go.go:103-104 | One text per declaration, in order, each the declaration's `type … struct { … }` text. |
| Rendering.Join | json2go.go:107 | `strings.Join`: no parts give the empty string, one part gives itself, and the result starts with the first part. |
| Rendering.JoinAppend | json2go.go:107 | Appending a part to a non-empty list appends the separator and the part to the joined text. |
| Rendering.Unwrap | json2go.go:61-63 | Unwrapping gives a well-formed node that is not a bare top-level array. A bare top-level array unwraps as its element does, and any other node is left as it is. |
| Rendering.UnwrapNamedRoot | json2go.go:61-63 | A detected top-level array with a name stands for its element: it unwraps to the element, and its declarations and generated text are the element's. |
| Rendering.Collect | json2go.go:69-105 | `collect` marks exactly the declarations it adds as visited. It adds no identity twice and none already visited. Every declaration it adds is the declaration (identity and field lines) of a map node reachable through map fields. In named mode every pointer field refers to a visited identity. In anonymous mode it adds at most one declaration. An unvisited map gets its own declaration last, after its children's. A non-map or an already visited node adds nothing. |
| Rendering.CollectChildren | json2go.go:78-82 | Collecting the children in turn adds distinct new declarations, each the declaration of a map node reachable from a child through map fields. Afterwards every map child has been visited. |
| Rendering.OwnRefs | json2go.go:96-101 | A struct's pointer fields refer only to identities of its map children. |
| Rendering.Declarations | json2go.go:65-106 | All declarations of a tree have distinct names. Each is the declaration (identity and field lines) of a map node reachable through map fields from the unwrapped root. In named mode every pointer field refers to a declared struct. In anonymous mode there is at most one declaration. There is at least one exactly when the unwrapped root is a map, whose declaration comes last. |
| Rendering.GenGoStructs | json2go.go:60-107 | The output is the declarations of the unwrapped root joined with newlines. It is empty when the unwrapped root is not a map. |
| Scenarios.ExportUserId | json2go.go:136-143 | `toExported("user_id")` is `Userid`. |
| Scenarios.UserExample | json2go.go:183-189 | `{"user_id": 5, "name": "Al"}` gives fields `Userid` (int) and `Name` (string), listed `Name` first, with tags `name` and `userid`. |
| Scenarios.MixedNumbersFail | json2go.go:162-167 | `[1, 2, 3.5]` is a type error at the array's path: int and float64 do not unify. |
| Scenarios.ArrayFieldConflictKeepsFirst | json2go.go:172-179 | `[{"v": 1}, {"v": "two"}]` is detected without error, and its element type's field `V` is int, the first element's kind. |
| Scenarios.FieldConflictKeepsFirst | json2go.go:120-128 | Merging `{"v": 1}` with `{"v": "two"}` keeps `V` as int and succeeds. |
| Scenarios.ArrayElementStructNotDeclared | json2go.go:69-101 | In `{"a": [{"x": 1}]}` the struct `T` has the single field line `A []TA` with tag `a`, but named mode declares only `T`. |

## Left out

- I/O and printing: the warning `mergeStruct` prints for a conflicting field is
  not modelled. The model only keeps dest's child, as the code does.
- Panics are `Err` values. Nothing after a panic is modelled.
- `DetectType` is a plain wrapper around `detectType` and has no model of its
  own.
- The `Tag` field of `StructType` is never set or read by the code and is not
  modelled.
- Go map iteration order is random. The model fixes one order.
  - Object members are taken in sequence order. When two keys export to the
    same name, the last one wins (`Detection.ObjectLastWins`).
  - In named mode, `collect` visits children in ascending key order, which is
    one of the orders the code may take. Which declaration comes first among
    siblings is therefore one possible run, not every run. Distinctness,
    reachability, reference closure and "own declaration last" are proved
    only for this order.
  - The order also decides declaration contents when two different map nodes
    share an identity. In `{"a": {"b": {…}}, "aB": {…}}` under root `T`, both
    `T`+`A`+`B` and `T`+`AB` are `TAB`. Go's map order decides whose fields
    are declared as `TAB`, and the other node's fields are dropped. The model
    always declares the node reached first in key order (here `A`'s child
    `B`).
- Pointer aliasing: `mergeStruct` mutates `dest` in place, and an adopted
  field is shared with the source tree. The model returns a new tree, which
  gives the same tree as long as no one looks at the source again.
- Numbers: a decoded float64 is a `real`. `float64(int64(v)) == v` is modelled
  as "integral and within the int64 range". Go leaves an out-of-range
  `int64(v)` to the platform. On some platforms the value 2^63 converts back
  to itself and would be detected as int, but the model says float64.
- Case mapping is ASCII only. `Upper` and `Lower` change only `'a'..'z'` and
  `'A'..'Z'` and leave every other character as it is, where Go's
  `strings.ToUpper` / `ToLower` also map non-ASCII letters. On a key whose
  first remaining character is not ASCII, Go's `strings.ToUpper(s[:1])` sees
  a partial UTF-8 byte.
- Sorting: `sort.Strings` compares UTF-8 bytes, and the model compares code
  points. The two orders agree on valid strings.
- Trees that detection never produces are outside the model. One example is
  an array node without its `"0"` child, which would make the code
  dereference nil. `GoType`, `GenGoStructs` and the field rendering require
  `WellFormed`.
