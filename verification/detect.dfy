/** Type detection: the node tree inferred from one decoded JSON value. */
module Detection {
  import opened Results
  import opened Names
  import opened JsonValues
  import opened StructTypes
  import opened Merging

  /** The kind detection assigns to a value, read off its outermost shape. */
  function JsonKind(j: Json): (k: Kind)
    ensures k == MapKind <==> j.Object?
    ensures k == ArrayKind <==> j.Array?
    ensures k == InterfaceKind <==> j.Null? || j.Other?
    ensures k == IntKind <==> j.Number? && IsIntegral(j.n)
    ensures k == FloatKind <==> j.Number? && !IsIntegral(j.n)
    ensures k == StringKind <==> j.Str?
    ensures k == BoolKind <==> j.Bool?
  {
    match j
    case Null => InterfaceKind
    case Bool(_) => BoolKind
    case Number(n) => if IsIntegral(n) then IntKind else FloatKind
    case Str(_) => StringKind
    case Array(_) => ArrayKind
    case Object(_) => MapKind
    case Other => InterfaceKind
  }

  /** The values detection accepts: every object key survives normalisation
      and all elements of an array have the kind of the first. */
  predicate Detectable(j: Json)
  {
    match j
    case Array(items) =>
      forall i :: 0 <= i < |items| ==> Detectable(items[i]) && JsonKind(items[i]) == JsonKind(items[0])
    case Object(ms) =>
      forall i :: 0 <= i < |ms| ==> ToExported(ms[i].key).Ok? && Detectable(ms[i].value)
    case _ => true
  }

  /** The exported names of the keys of `ms` (those that have one). */
  function ExportedKeys(ms: seq<Member>): set<string>
  {
    set i | 0 <= i < |ms| && ToExported(ms[i].key).Ok? :: ToExported(ms[i].key).value
  }

  /** Children facts shared by every node built under path `path`. */
  predicate ChildAt(c: Node, path: string, name: string)
  {
    c.parent == path && c.name == name && WellFormed(c) && Positioned(c)
  }

  /** The node inferred for `j` at position (`parent`, `name`). */
  function Detect(j: Json, name: string, parent: string): (r: Result<Node>)
    ensures r.Ok? ==> r.value.kind == JsonKind(j) && r.value.name == name && r.value.parent == parent
    ensures r.Ok? ==> WellFormed(r.value) && Positioned(r.value)
    ensures r.Ok? && j.Object? ==> r.value.fields.Keys == ExportedKeys(j.members)
    ensures r.Ok? && j.Array? && |j.items| == 0 ==> r.value.fields[ArrayKey] == Placeholder
    ensures r.Ok? && j.Array? && |j.items| > 0 ==>
              ChildAt(r.value.fields[ArrayKey], parent + name, "")
              && r.value.fields[ArrayKey].kind == JsonKind(j.items[0])
    decreases j, 0
  {
    match j
    case Null => Ok(Node(parent, name, InterfaceKind, map[]))
    case Bool(_) => Ok(Node(parent, name, BoolKind, map[]))
    case Number(n) => Ok(Node(parent, name, if IsIntegral(n) then IntKind else FloatKind, map[]))
    case Str(_) => Ok(Node(parent, name, StringKind, map[]))
    case Array(items) =>
      if |items| == 0 then
        ArrayNodeShape(parent, name, Placeholder);
        Ok(Node(parent, name, ArrayKind, map[ArrayKey := Placeholder]))
      else
        (match Detect(items[0], "", parent + name)
         case Err(f) => Err(f)
         case Ok(first) =>
           (match FoldElements(items, 1, first, parent + name)
            case Err(f) => Err(f)
            case Ok(elem) =>
              ArrayNodeShape(parent, name, elem);
              Ok(Node(parent, name, ArrayKind, map[ArrayKey := elem]))))
    case Object(ms) =>
      (match DetectMembers(ms, 0, map[], parent + name)
       case Err(f) => Err(f)
       case Ok(fields) =>
         assert ms[0..] == ms;
         MapNodeShape(parent, name, fields);
         Ok(Node(parent, name, MapKind, fields)))
    case Other => Ok(Node(parent, name, InterfaceKind, map[]))
  }

  /** An array node built around a well-placed element is well formed and positioned. */
  lemma ArrayNodeShape(parent: string, name: string, elem: Node)
    requires WellFormed(elem) && Positioned(elem)
    requires elem == Placeholder || (elem.parent == parent + name && elem.name == "")
    ensures var r := Node(parent, name, ArrayKind, map[ArrayKey := elem]);
            WellFormed(r) && Positioned(r) && r.fields.Keys == {ArrayKey} && r.fields[ArrayKey] == elem
  {
    var r := Node(parent, name, ArrayKind, map[ArrayKey := elem]);
    assert r.fields.Keys == {ArrayKey};
  }

  /** A map node whose children sit under its identity, by key, is well formed and positioned. */
  lemma MapNodeShape(parent: string, name: string, fields: map<string, Node>)
    requires forall k :: k in fields ==> ChildAt(fields[k], parent + name, k)
    ensures WellFormed(Node(parent, name, MapKind, fields)) && Positioned(Node(parent, name, MapKind, fields))
  {
  }

  /** Merges the types of `items[i..]` into the element type `acc`, in order.
      The accumulated type is the merge destination, so the fields it already
      has keep their kinds: earlier elements win conflicts. */
  function FoldElements(items: seq<Json>, i: nat, acc: Node, path: string): (r: Result<Node>)
    requires 1 <= i <= |items|
    requires ChildAt(acc, path, "")
    ensures r.Ok? ==> r.value.kind == acc.kind && ChildAt(r.value, path, "")
    ensures r.Ok? ==> acc.fields.Keys <= r.value.fields.Keys
    ensures r.Ok? ==> forall k :: k in acc.fields ==> r.value.fields[k].kind == acc.fields[k].kind
    decreases items, |items| - i
  {
    if i == |items| then Ok(acc)
    else
      match Detect(items[i], "", path)
      case Err(f) => Err(f)
      case Ok(e) =>
        match Merge(acc, e)
        case Err(f) => Err(f)
        case Ok(m) =>
          MergeKeepsWellFormed(acc, e);
          MergeKeepsPositioned(acc, e);
          FoldElements(items, i + 1, m, path)
  }

  /** Detects the members `ms[i..]` in order into `acc`, each under its
      exported name; a later member overwrites an earlier one with the same
      exported name. */
  function DetectMembers(ms: seq<Member>, i: nat, acc: map<string, Node>, path: string)
    : (r: Result<map<string, Node>>)
    requires i <= |ms|
    requires forall k :: k in acc ==> ChildAt(acc[k], path, k)
    ensures r.Ok? ==> r.value.Keys == acc.Keys + ExportedKeys(ms[i..])
    ensures r.Ok? ==> forall k :: k in r.value ==> ChildAt(r.value[k], path, k)
    decreases ms, |ms| - i
  {
    if i == |ms| then Ok(acc)
    else
      match ToExported(ms[i].key)
      case Err(f) => Err(f)
      case Ok(k) =>
        match Detect(ms[i].value, k, path)
        case Err(f) => Err(f)
        case Ok(c) =>
          var r := DetectMembers(ms, i + 1, acc[k := c], path);
          assert ExportedKeys(ms[i..]) == {k} + ExportedKeys(ms[i + 1..]) by {
            ExportedKeysCons(ms, i);
          }
          r
  }

  lemma ExportedKeysAppend(a: seq<Member>, b: seq<Member>)
    ensures ExportedKeys(a + b) == ExportedKeys(a) + ExportedKeys(b)
  {
    var ab := a + b;
    forall x | x in ExportedKeys(ab) ensures x in ExportedKeys(a) + ExportedKeys(b) {
      var m :| 0 <= m < |ab| && ToExported(ab[m].key).Ok? && ToExported(ab[m].key).value == x;
      if m >= |a| { assert ab[m] == b[m - |a|]; }
    }
    forall x | x in ExportedKeys(b) ensures x in ExportedKeys(ab) {
      var m :| 0 <= m < |b| && ToExported(b[m].key).Ok? && ToExported(b[m].key).value == x;
      assert b[m] == ab[m + |a|];
    }
    forall x | x in ExportedKeys(a) ensures x in ExportedKeys(ab) {
      var m :| 0 <= m < |a| && ToExported(a[m].key).Ok? && ToExported(a[m].key).value == x;
      assert a[m] == ab[m];
    }
  }

  lemma ExportedKeysSingle(m: Member)
    requires ToExported(m.key).Ok?
    ensures ExportedKeys([m]) == {ToExported(m.key).value}
  {
    assert [m][0] == m;
  }

  lemma ExportedKeysCons(ms: seq<Member>, i: nat)
    requires i < |ms| && ToExported(ms[i].key).Ok?
    ensures ExportedKeys(ms[i..]) == {ToExported(ms[i].key).value} + ExportedKeys(ms[i + 1..])
  {
    assert ms[i..] == [ms[i]] + ms[i + 1..];
    ExportedKeysAppend([ms[i]], ms[i + 1..]);
    assert ExportedKeys([ms[i]]) == {ToExported(ms[i].key).value};
  }

  /** Detection succeeds exactly on the detectable values: it fails only on a
      key made of underscores or on array elements of different kinds. */
  lemma {:induction false} DetectOkIff(j: Json, name: string, parent: string)
    ensures Detect(j, name, parent).Ok? <==> Detectable(j)
    decreases j, 0
  {
    match j
    case Array(items) =>
      if |items| > 0 {
        DetectableArray(items);
        DetectOkIff(items[0], "", parent + name);
        var d := Detect(items[0], "", parent + name);
        if d.Ok? {
          FoldOkIff(items, 1, d.value, parent + name);
        }
      }
    case Object(ms) =>
      MembersOkIff(ms, 0, map[], parent + name);
    case _ =>
  }

  /** A non-empty array is detectable when its first element is and every
      later element is detectable with the first element's kind. */
  /** The element type of a detected array keeps every field of the first
      element's type, with its kind: the first element wins field conflicts. */
  lemma ArrayFirstWins(items: seq<Json>, name: string, parent: string)
    requires |items| > 0 && Detect(Array(items), name, parent).Ok?
    ensures Detect(items[0], "", parent + name).Ok?
    ensures var first := Detect(items[0], "", parent + name).value;
            var elem := Detect(Array(items), name, parent).value.fields[ArrayKey];
            && first.fields.Keys <= elem.fields.Keys
            && forall k :: k in first.fields ==> elem.fields[k].kind == first.fields[k].kind
  {
  }

  lemma DetectableArray(items: seq<Json>)
    requires |items| > 0
    ensures Detectable(Array(items)) <==>
              Detectable(items[0])
              && ElementsOfKind(items, 1, JsonKind(items[0]))
  {
  }

  /** Every element from index `i` on is detectable with kind `k`. */
  predicate ElementsOfKind(items: seq<Json>, i: nat, k: Kind)
  {
    forall m :: i <= m < |items| ==> Detectable(items[m]) && JsonKind(items[m]) == k
  }

  lemma {:induction false} FoldOkIff(items: seq<Json>, i: nat, acc: Node, path: string)
    requires 1 <= i <= |items|
    requires ChildAt(acc, path, "")
    ensures FoldElements(items, i, acc, path).Ok? <==> ElementsOfKind(items, i, acc.kind)
    decreases items, |items| - i
  {
    if i < |items| {
      DetectOkIff(items[i], "", path);
      FoldStep(items, i, acc, path);
      ElementsOfKindStep(items, i, acc.kind);
      var d := Detect(items[i], "", path);
      if d.Ok? && d.value.kind == acc.kind {
        FoldOkIff(items, i + 1, MergeFields(acc, d.value), path);
      }
    }
  }

  lemma ElementsOfKindStep(items: seq<Json>, i: nat, k: Kind)
    requires i < |items|
    ensures ElementsOfKind(items, i, k) <==>
              Detectable(items[i]) && JsonKind(items[i]) == k && ElementsOfKind(items, i + 1, k)
  {
  }

  /** One step of the element fold: it fails unless the next element is
      detected with the accumulated kind, and otherwise continues from the
      merge of the two. */
  lemma FoldStep(items: seq<Json>, i: nat, acc: Node, path: string)
    requires 1 <= i < |items|
    requires ChildAt(acc, path, "")
    ensures var d := Detect(items[i], "", path);
            if d.Ok? && d.value.kind == acc.kind then
              var m := MergeFields(acc, d.value);
              && ChildAt(m, path, "") && m.kind == acc.kind
              && FoldElements(items, i, acc, path) == FoldElements(items, i + 1, m, path)
            else FoldElements(items, i, acc, path).Err?
  {
    var d := Detect(items[i], "", path);
    if d.Ok? && d.value.kind == acc.kind {
      MergeKeepsWellFormed(acc, d.value);
      MergeKeepsPositioned(acc, d.value);
    }
  }

  lemma {:induction false} MembersOkIff(ms: seq<Member>, i: nat, acc: map<string, Node>, path: string)
    requires i <= |ms|
    requires forall k :: k in acc ==> ChildAt(acc[k], path, k)
    ensures DetectMembers(ms, i, acc, path).Ok? <==>
              forall m :: i <= m < |ms| ==> ToExported(ms[m].key).Ok? && Detectable(ms[m].value)
    decreases ms, |ms| - i
  {
    if i < |ms| {
      var e := ToExported(ms[i].key);
      if e.Ok? {
        DetectOkIff(ms[i].value, e.value, path);
        var d := Detect(ms[i].value, e.value, path);
        if d.Ok? {
          MembersOkIff(ms, i + 1, acc[e.value := d.value], path);
        }
      }
    }
  }

  /** An array whose elements are all the same value has that value's type as
      its element type: merging a node with an equal one adds nothing. */
  lemma ArrayOfCopies(items: seq<Json>, name: string, parent: string)
    requires |items| > 0 && forall m :: 0 <= m < |items| ==> items[m] == items[0]
    requires Detect(items[0], "", parent + name).Ok?
    ensures Detect(Array(items), name, parent)
              == Ok(Node(parent, name, ArrayKind, map[ArrayKey := Detect(items[0], "", parent + name).value]))
  {
    FoldCopies(items, 1, Detect(items[0], "", parent + name).value, parent + name);
  }

  lemma {:induction false} FoldCopies(items: seq<Json>, i: nat, acc: Node, path: string)
    requires 1 <= i <= |items|
    requires ChildAt(acc, path, "")
    requires forall m :: i <= m < |items| ==> Detect(items[m], "", path) == Ok(acc)
    ensures FoldElements(items, i, acc, path) == Ok(acc)
    decreases |items| - i
  {
    if i < |items| {
      MergeSelf(acc);
      FoldStep(items, i, acc, path);
      FoldCopies(items, i + 1, acc, path);
    }
  }

  /** The exported names of every object among `items`. */
  function ElementKeys(items: seq<Json>): set<string>
  {
    set m, k | 0 <= m < |items| && items[m].Object? && k in ExportedKeys(items[m].members) :: k
  }

  /** The element type of an array of objects has the union of the fields of
      all its elements. */
  lemma ArrayOfObjectsKeys(items: seq<Json>, name: string, parent: string)
    requires |items| > 0 && items[0].Object?
    requires Detect(Array(items), name, parent).Ok?
    ensures forall m :: 0 <= m < |items| ==> items[m].Object?
    ensures Detect(Array(items), name, parent).value.fields[ArrayKey].fields.Keys == ElementKeys(items)
  {
    var path := parent + name;
    DetectOkIff(Array(items), name, parent);
    forall m | 0 <= m < |items| ensures items[m].Object? {
      assert JsonKind(items[m]) == JsonKind(items[0]);
    }
    var first := Detect(items[0], "", path).value;
    FoldKeys(items, 1, first, path);
    ElementKeysSplit(items, 0);
    assert items[0..] == items;
  }

  lemma {:induction false} FoldKeys(items: seq<Json>, i: nat, acc: Node, path: string)
    requires 1 <= i <= |items|
    requires ChildAt(acc, path, "") && acc.kind == MapKind
    requires forall m :: 0 <= m < |items| ==> items[m].Object?
    requires FoldElements(items, i, acc, path).Ok?
    ensures FoldElements(items, i, acc, path).value.fields.Keys == acc.fields.Keys + ElementKeys(items[i..])
    decreases |items| - i
  {
    if i == |items| {
      assert items[i..] == [];
      assert ElementKeys(items[i..]) == {};
    } else {
      FoldStep(items, i, acc, path);
      var e := Detect(items[i], "", path).value;
      var m := MergeFields(acc, e);
      FoldKeys(items, i + 1, m, path);
      ElementKeysSplit(items, i);
      UnionStep(acc.fields.Keys, e.fields.Keys, m.fields.Keys,
                ExportedKeys(items[i].members), ElementKeys(items[i + 1..]), ElementKeys(items[i..]));
    }
  }

  lemma UnionStep(a: set<string>, e: set<string>, m: set<string>, x: set<string>, rest: set<string>,
                  all: set<string>)
    requires m == a + e && e == x && all == x + rest
    ensures m + rest == a + all
  {
  }

  lemma ElementKeysSplit(items: seq<Json>, i: nat)
    requires i < |items| && items[i].Object?
    ensures ElementKeys(items[i..]) == ExportedKeys(items[i].members) + ElementKeys(items[i + 1..])
  {
    var a := items[i..];
    var b := items[i + 1..];
    assert a[0] == items[i];
    forall k | k in ElementKeys(a) ensures k in ExportedKeys(items[i].members) + ElementKeys(b) {
      var m :| 0 <= m < |a| && a[m].Object? && k in ExportedKeys(a[m].members);
      if m > 0 { assert a[m] == b[m - 1]; }
    }
    forall k | k in ElementKeys(b) ensures k in ElementKeys(a) {
      var m :| 0 <= m < |b| && b[m].Object? && k in ExportedKeys(b[m].members);
      assert b[m] == a[m + 1];
    }
  }

  /** The value of the last member of `ms` whose key exports to `k`. */
  function LastWith(ms: seq<Member>, k: string): (v: Json)
    requires k in ExportedKeys(ms)
    ensures exists i :: 0 <= i < |ms| && ToExported(ms[i].key) == Ok(k) && ms[i].value == v
    decreases |ms|
  {
    var n := |ms| - 1;
    if ToExported(ms[n].key) == Ok(k) then ms[n].value
    else
      assert ms == ms[..n] + [ms[n]];
      ExportedKeysAppend(ms[..n], [ms[n]]);
      var v := LastWith(ms[..n], k);
      ghost var i :| 0 <= i < n && ToExported(ms[..n][i].key) == Ok(k) && ms[..n][i].value == v;
      assert ms[i] == ms[..n][i];
      v
  }

  /** Among object members whose keys export to the same name, the last one
      determines the child: each child is the type of the last member with
      that exported name. */
  lemma ObjectLastWins(ms: seq<Member>, name: string, parent: string)
    requires Detect(Object(ms), name, parent).Ok?
    ensures var n := Detect(Object(ms), name, parent).value;
            forall k :: k in n.fields ==>
              k in ExportedKeys(ms) && Detect(LastWith(ms, k), k, parent + name) == Ok(n.fields[k])
  {
    assert ms[..0] == [];
    var r := DetectMembers(ms, 0, map[], parent + name);
    MembersLastWins(ms, 0, map[], parent + name, r.value);
  }

  lemma {:induction false} MembersLastWins(ms: seq<Member>, i: nat, acc: map<string, Node>, path: string,
                                           r: map<string, Node>)
    requires i <= |ms|
    requires forall k :: k in acc ==> ChildAt(acc[k], path, k)
    requires acc.Keys == ExportedKeys(ms[..i])
    requires forall k :: k in acc ==> Detect(LastWith(ms[..i], k), k, path) == Ok(acc[k])
    requires DetectMembers(ms, i, acc, path) == Ok(r)
    ensures forall k :: k in r ==> k in ExportedKeys(ms) && Detect(LastWith(ms, k), k, path) == Ok(r[k])
    decreases |ms| - i
  {
    if i == |ms| {
      assert ms[..i] == ms;
    } else {
      MembersStep(ms, i, acc, path);
      var e := ToExported(ms[i].key);
      var d := Detect(ms[i].value, e.value, path);
      var acc' := acc[e.value := d.value];
      var next := ms[..i + 1];
      assert acc'.Keys == ExportedKeys(next)
             && forall k :: k in acc' ==> Detect(LastWith(next, k), k, path) == Ok(acc'[k]) by {
        assert next == ms[..i] + [ms[i]];
        StepLastWith(ms[..i], ms[i], e.value, d.value, acc, path);
      }
      MembersLastWins(ms, i + 1, acc', path, r);
    }
  }

  /** One step of member detection, for a run that succeeds. */
  lemma MembersStep(ms: seq<Member>, i: nat, acc: map<string, Node>, path: string)
    requires i < |ms|
    requires forall k :: k in acc ==> ChildAt(acc[k], path, k)
    requires DetectMembers(ms, i, acc, path).Ok?
    ensures ToExported(ms[i].key).Ok?
    ensures var k0 := ToExported(ms[i].key).value;
            && Detect(ms[i].value, k0, path).Ok?
            && var acc' := acc[k0 := Detect(ms[i].value, k0, path).value];
            && (forall k :: k in acc' ==> ChildAt(acc'[k], path, k))
            && DetectMembers(ms, i, acc, path) == DetectMembers(ms, i + 1, acc', path)
  {
  }

  /** Adding one member to the prefix updates the children under its exported name only. */
  lemma StepLastWith(pre: seq<Member>, m: Member, k0: string, c: Node, acc: map<string, Node>, path: string)
    requires ToExported(m.key) == Ok(k0) && Detect(m.value, k0, path) == Ok(c)
    requires acc.Keys == ExportedKeys(pre)
    requires forall k :: k in acc ==> Detect(LastWith(pre, k), k, path) == Ok(acc[k])
    ensures acc[k0 := c].Keys == ExportedKeys(pre + [m])
    ensures forall k :: k in acc[k0 := c] ==> Detect(LastWith(pre + [m], k), k, path) == Ok(acc[k0 := c][k])
  {
    var acc' := acc[k0 := c];
    ExportedKeysAppend(pre, [m]);
    ExportedKeysSingle(m);
    assert acc'.Keys == acc.Keys + {k0};
    forall k | k in acc' ensures Detect(LastWith(pre + [m], k), k, path) == Ok(acc'[k]) {
      LastWithAppend(pre, m, k);
      if k != k0 {
        assert k in acc && acc'[k] == acc[k];
      }
    }
  }

  /** The last member with a name is the appended one if its key exports to
      that name, and otherwise the last such member before it. */
  lemma LastWithAppend(pre: seq<Member>, m: Member, k: string)
    requires ToExported(m.key).Ok?
    requires k in ExportedKeys(pre + [m])
    ensures ToExported(m.key).value == k ==> LastWith(pre + [m], k) == m.value
    ensures ToExported(m.key).value != k ==>
              k in ExportedKeys(pre) && LastWith(pre + [m], k) == LastWith(pre, k)
  {
    var p := pre + [m];
    assert p[..|pre|] == pre;
    assert p[|pre|] == m;
    ExportedKeysAppend(pre, [m]);
    ExportedKeysSingle(m);
  }
}
