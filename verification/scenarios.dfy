/** Concrete inputs worked through the model, including the places where the
    code's behaviour differs from what a reader might expect. */
module Scenarios {
  import opened Results
  import opened Names
  import opened Ordering
  import opened JsonValues
  import opened StructTypes
  import opened Merging
  import opened Detection
  import opened Rendering

  lemma ExportUserId()
    ensures ToExported("user_id") == Ok("Userid")
  {
    ExportLeadingLetter("user_id");
    StripSerId();
    assert [Upper('u')] + "serid" == "Userid";
  }

  lemma StripSerId()
    ensures StripUnderscores("ser_id") == "serid"
  {
    var t := StripUnderscores("id");
    StripNoUnderscore("id");
    assert "ser_id"[4..] == "id";
    assert StripUnderscores("_id") == t;
  }

  lemma ExportName()
    ensures ToExported("name") == Ok("Name")
  {
    ExportLeadingLetter("name");
    StripNoUnderscore("ame");
    assert [Upper('n')] + "ame" == "Name";
  }

  /** A key that starts with a letter keeps its stripped tail after the
      upper-cased first letter. */
  lemma ExportLeadingLetter(s: string)
    requires s != "" && s[0] != '_'
    ensures ToExported(s) == Ok([Upper(s[0])] + StripUnderscores(s[1..]))
  {
    assert LeadingUnderscores(s) == 0;
  }

  lemma ExportLetter(c: char)
    requires 'a' <= c <= 'z'
    ensures ToExported([c]) == Ok([Upper(c)])
  {
    var t := StripUnderscores([c]);
    assert t == [c];
    assert [Upper(t[0])] + t[1..] == [Upper(c)];
  }

  /** `{"user_id": 5, "name": "Al"}`: fields Name and Userid, listed in that
      order, tagged with the lower-cased exported names. The tag of user_id
      is "userid", not the JSON key. */
  lemma UserExample(j: Json)
    requires j == Object([Member("user_id", Number(5.0)), Member("name", Str("Al"))])
    ensures var r := Detect(j, "User", "");
            && r.Ok?
            && r.value.fields.Keys == {"Userid", "Name"}
            && r.value.fields["Userid"].kind == IntKind
            && r.value.fields["Name"].kind == StringKind
            && var fs := FieldList(r.value, false);
            && |fs| == 2
            && fs[0].name == "Name" && fs[0].tag == "name"
            && fs[1].name == "Userid" && fs[1].tag == "userid"
  {
    var ms := j.members;
    UserMembers(ms);
    var fields := DetectMembers(ms, 0, map[], "User").value;
    assert "" + "User" == "User";
    DetectObjectOk(ms, "User", "", fields);
    UserFieldOrder(Detect(j, "User", "").value);
  }

  /** An object is detected as a map node holding its detected members. */
  lemma DetectObjectOk(ms: seq<Member>, name: string, parent: string, fields: map<string, Node>)
    requires DetectMembers(ms, 0, map[], parent + name) == Ok(fields)
    ensures Detect(Object(ms), name, parent) == Ok(Node(parent, name, MapKind, fields))
  {
  }

  lemma UserMembers(ms: seq<Member>)
    requires ms == [Member("user_id", Number(5.0)), Member("name", Str("Al"))]
    ensures var r := DetectMembers(ms, 0, map[], "User");
            && r.Ok? && r.value.Keys == {"Userid", "Name"}
            && r.value["Userid"].kind == IntKind && r.value["Name"].kind == StringKind
  {
    var uid := Node("User", "Userid", IntKind, map[]);
    var fields := map["Userid" := uid, "Name" := Node("User", "Name", StringKind, map[])];
    UserMembersExact(ms, uid, fields);
    UserFields(uid, fields);
  }

  lemma UserMembersExact(ms: seq<Member>, uid: Node, fields: map<string, Node>)
    requires ms == [Member("user_id", Number(5.0)), Member("name", Str("Al"))]
    requires uid == Node("User", "Userid", IntKind, map[])
    requires fields == map["Userid" := uid, "Name" := Node("User", "Name", StringKind, map[])]
    ensures DetectMembers(ms, 0, map[], "User") == Ok(fields)
  {
    ExportUserId();
    ExportName();
    assert IsIntegral(5.0);
    assert Detect(Number(5.0), "Userid", "User") == Ok(uid);
    UserSecondMember(ms, uid, fields);
  }

  lemma UserFields(uid: Node, fields: map<string, Node>)
    requires uid == Node("User", "Userid", IntKind, map[])
    requires fields == map["Userid" := uid, "Name" := Node("User", "Name", StringKind, map[])]
    ensures fields.Keys == {"Userid", "Name"}
    ensures fields["Userid"].kind == IntKind && fields["Name"].kind == StringKind
  {
  }

  lemma UserSecondMember(ms: seq<Member>, uid: Node, fields: map<string, Node>)
    requires ms == [Member("user_id", Number(5.0)), Member("name", Str("Al"))]
    requires uid == Node("User", "Userid", IntKind, map[])
    requires fields == map["Userid" := uid, "Name" := Node("User", "Name", StringKind, map[])]
    ensures DetectMembers(ms, 1, map["Userid" := uid], "User") == Ok(fields)
  {
    ExportName();
    assert DetectMembers(ms, 2, fields, "User") == Ok(fields);
  }

  lemma UserFieldOrder(n: Node)
    requires WellFormed(n) && n.fields.Keys == {"Userid", "Name"}
    ensures var fs := FieldList(n, false);
            && |fs| == 2
            && fs[0].name == "Name" && fs[0].tag == "name"
            && fs[1].name == "Userid" && fs[1].tag == "userid"
  {
    var fs := FieldList(n, false);
    FieldListOrder(n, false);
    FieldListFields(n, false);
    UserFieldPair(fs);
  }

  /** A sorted, tagged listing of exactly the keys Userid and Name. */
  lemma UserFieldPair(fs: seq<Field>)
    requires |fs| == 2 && (set i | 0 <= i < |fs| :: fs[i].name) == {"Userid", "Name"}
    requires Less(fs[0].name, fs[1].name)
    requires fs[0].tag == ToLower(fs[0].name) && fs[1].tag == ToLower(fs[1].name)
    ensures fs[0].name == "Name" && fs[0].tag == "name"
    ensures fs[1].name == "Userid" && fs[1].tag == "userid"
  {
    NameBeforeUserid();
    TwoSortedFields(fs, "Name", "Userid");
    LowerName();
    LowerUserid();
  }

  lemma NameBeforeUserid()
    ensures Less("Name", "Userid")
  {
  }

  /** Two fields with distinct names listed in ascending order. */
  lemma TwoSortedFields(fs: seq<Field>, a: string, b: string)
    requires |fs| == 2 && (set i | 0 <= i < |fs| :: fs[i].name) == {a, b}
    requires Less(fs[0].name, fs[1].name) && Less(a, b)
    ensures fs[0].name == a && fs[1].name == b
  {
    var names := set i | 0 <= i < |fs| :: fs[i].name;
    assert fs[0].name in names && fs[1].name in names;
    assert a in names;
    assert b in names;
    LessIrreflexive(fs[0].name);
    if fs[0].name == b {
      LessTransitive(b, a, b);
      LessIrreflexive(b);
    }
  }

  lemma LowerName()
    ensures ToLower("Name") == "name"
  {
    var r := ToLower("Name");
    assert r[0] == Lower('N') == 'n';
    assert r[1] == 'a' && r[2] == 'm' && r[3] == 'e';
  }

  lemma LowerUserid()
    ensures ToLower("Userid") == "userid"
  {
    var r := ToLower("Userid");
    assert r[0] == Lower('U') == 'u';
    assert r[1] == 's' && r[2] == 'e' && r[3] == 'r' && r[4] == 'i' && r[5] == 'd';
  }

  /** `[1, 2, 3.5]`: an int element and a float64 element do not unify; the
      array is a type error at the element's position. */
  lemma MixedNumbersFail()
    ensures Detect(Array([Number(1.0), Number(2.0), Number(3.5)]), "Values", "") == Err(TypeError("Values"))
  {
    assert IsIntegral(1.0) && IsIntegral(2.0) && !IsIntegral(3.5);
  }

  /** Merging `{"v": 1}` with `{"v": "two"}` succeeds and keeps v as int. */
  lemma FieldConflictKeepsFirst()
    ensures var d := Node("", "T", MapKind, map["V" := Node("T", "V", IntKind, map[])]);
            var s := Node("", "T", MapKind, map["V" := Node("T", "V", StringKind, map[])]);
            Merge(d, s) == Ok(d)
  {
    var d := Node("", "T", MapKind, map["V" := Node("T", "V", IntKind, map[])]);
    var s := Node("", "T", MapKind, map["V" := Node("T", "V", StringKind, map[])]);
    assert MergeFields(d, s).fields == d.fields;
  }

  /** An array of objects inside an object: in named mode the field line of
      `A` has type `[]TA`, but no declaration named TA is emitted. */
  lemma ArrayElementStructNotDeclared()
    ensures var elem := Node("TA", "", MapKind, map["X" := Node("TA", "X", IntKind, map[])]);
            var arr := Node("T", "A", ArrayKind, map[ArrayKey := elem]);
            var root := Node("", "T", MapKind, map["A" := arr]);
            && Detect(Object([Member("a", Array([Object([Member("x", Number(1.0))])]))]), "T", "") == Ok(root)
            && Declarations(root, false) == [DeclOf(root, false)]
            && GoType(arr, false) == "[]TA"
            && DeclOf(root, false).fields == [Field("A", false, "[]TA", "a")]
            && "TA" !in DeclNames(Declarations(root, false))
  {
    var elem := Node("TA", "", MapKind, map["X" := Node("TA", "X", IntKind, map[])]);
    var arr := Node("T", "A", ArrayKind, map[ArrayKey := elem]);
    var root := Node("", "T", MapKind, map["A" := arr]);
    DetectInnerObject();
    DetectArrayField(arr);
    DetectOuterObject(arr, root);
    assert Identity(elem) == "TA";
    assert root.fields.Keys == {"A"};
    NamedDeclarationsOfRoot(root);
    ElementTypeName(arr);
    SingleArrayField(root, "A", "[]TA");
    LowerA();
  }

  /** A struct with one non-map field has one field line with that field's type. */
  lemma SingleArrayField(root: Node, k: string, t: string)
    requires WellFormed(root) && root.fields.Keys == {k}
    requires root.fields[k].kind != MapKind && GoType(root.fields[k], false) == t
    ensures DeclOf(root, false).fields == [Field(k, false, t, ToLower(k))]
  {
    var fs := FieldList(root, false);
    FieldListFields(root, false);
    assert |fs| == 1;
  }

  lemma LowerA()
    ensures ToLower("A") == "a"
  {
    assert ToLower("A")[0] == Lower('A') == 'a';
  }

  /** `[{"v": 1}, {"v": "two"}]`: the elements disagree on the kind of `V`,
      yet the array is detected, and its element type keeps the first
      element's int. */
  lemma ArrayFieldConflictKeepsFirst(j: Json)
    requires j == Array([Object([Member("v", Number(1.0))]), Object([Member("v", Str("two"))])])
    ensures Detect(j, "T", "").Ok?
    ensures var elem := Detect(j, "T", "").value.fields[ArrayKey];
            "V" in elem.fields && elem.fields["V"].kind == IntKind
  {
    ExportLetter('v');
    assert Detectable(j.items[0]) && Detectable(j.items[1]);
    DetectOkIff(j, "T", "");
    ArrayFirstWins(j.items, "T", "");
    DetectFirstV(j.items[0]);
  }

  lemma DetectFirstV(o: Json)
    requires o == Object([Member("v", Number(1.0))])
    ensures Detect(o, "", "T") == Ok(Node("T", "", MapKind, map["V" := Node("T", "V", IntKind, map[])]))
  {
    var v := Node("T", "V", IntKind, map[]);
    ExportLetter('v');
    assert IsIntegral(1.0);
    assert "T" + "" == "T";
    assert Detect(Number(1.0), "V", "T") == Ok(v);
    assert DetectMembers(o.members, 1, map["V" := v], "T") == Ok(map["V" := v]);
    assert DetectMembers(o.members, 0, map[], "T") == Ok(map["V" := v]);
  }

  lemma DetectInnerObject()
    ensures Detect(Object([Member("x", Number(1.0))]), "", "TA")
              == Ok(Node("TA", "", MapKind, map["X" := Node("TA", "X", IntKind, map[])]))
  {
    var x := Node("TA", "X", IntKind, map[]);
    var inner := [Member("x", Number(1.0))];
    ExportLetter('x');
    assert IsIntegral(1.0);
    assert "TA" + "" == "TA";
    assert Detect(Number(1.0), "X", "TA") == Ok(x);
    assert DetectMembers(inner, 1, map["X" := x], "TA") == Ok(map["X" := x]);
    assert DetectMembers(inner, 0, map[], "TA") == Ok(map["X" := x]);
  }

  lemma DetectArrayField(arr: Node)
    requires arr == Node("T", "A", ArrayKind,
                         map[ArrayKey := Node("TA", "", MapKind, map["X" := Node("TA", "X", IntKind, map[])])])
    ensures Detect(Array([Object([Member("x", Number(1.0))])]), "A", "T") == Ok(arr)
  {
    var elem := arr.fields[ArrayKey];
    var items := [Object([Member("x", Number(1.0))])];
    DetectInnerObject();
    assert "T" + "A" == "TA";
    assert FoldElements(items, 1, elem, "TA") == Ok(elem);
  }

  lemma DetectOuterObject(arr: Node, root: Node)
    requires arr.kind == ArrayKind && arr.parent == "T" && arr.name == "A"
    requires Detect(Array([Object([Member("x", Number(1.0))])]), "A", "T") == Ok(arr)
    requires root == Node("", "T", MapKind, map["A" := arr])
    ensures Detect(Object([Member("a", Array([Object([Member("x", Number(1.0))])]))]), "T", "") == Ok(root)
  {
    var outer := [Member("a", Array([Object([Member("x", Number(1.0))])]))];
    ExportLetter('a');
    assert "" + "T" == "T";
    assert DetectMembers(outer, 1, map["A" := arr], "T") == Ok(map["A" := arr]);
    assert DetectMembers(outer, 0, map[], "T") == Ok(map["A" := arr]);
  }

  lemma NamedDeclarationsOfRoot(root: Node)
    requires WellFormed(root) && root.kind == MapKind && Identity(root) == "T"
    requires forall k :: k in root.fields ==> root.fields[k].kind != MapKind
    ensures Declarations(root, false) == [DeclOf(root, false)]
    ensures DeclNames(Declarations(root, false)) == {"T"}
  {
    assert Unwrap(root) == root;
    CollectFlatStruct(root, false, {});
    DeclNamesSingle(DeclOf(root, false));
  }

  lemma DeclNamesSingle(d: Decl)
    ensures DeclNames([d]) == {d.name}
  {
    assert [d][0] == d;
  }

  lemma ElementTypeName(arr: Node)
    requires WellFormed(arr) && arr.kind == ArrayKind
    requires arr.fields[ArrayKey].kind == MapKind && Identity(arr.fields[ArrayKey]) == "TA"
    ensures GoType(arr, false) == "[]TA"
  {
    ArrayLayer(arr, false);
  }

  /** A struct none of whose fields is a map yields its own declaration only. */
  lemma CollectFlatStruct(st: Node, anonymous: bool, visited: set<string>)
    requires WellFormed(st) && st.kind == MapKind && Identity(st) !in visited
    requires forall k :: k in st.fields ==> st.fields[k].kind != MapKind
    ensures Collect(st, anonymous, visited) == (visited + {Identity(st)}, [DeclOf(st, anonymous)])
  {
    var own := DeclOf(st, anonymous);
    assert [] + [own] == [own];
    if !anonymous {
      NoMapChildren(st, SortedKeys(st.fields.Keys), visited + {Identity(st)});
    }
  }

  lemma {:induction false} NoMapChildren(st: Node, ks: seq<string>, visited: set<string>)
    requires WellFormed(st) && forall k :: k in ks ==> k in st.fields
    requires forall k :: k in st.fields ==> st.fields[k].kind != MapKind
    ensures CollectChildren(st, ks, visited) == (visited, [])
    decreases |ks|
  {
    if ks != [] {
      NoMapChildren(st, ks[1..], visited);
    }
  }
}
