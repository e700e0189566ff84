/** Field-name normalisation: the exported Go identifier derived from a JSON
    key, and the ASCII case mapping used for names and tags. */
module Names {
  import opened Results

  /** ASCII upper-casing of one character; every other character is kept. */
  function Upper(c: char): (u: char)
    ensures u != c <==> 'a' <= c <= 'z'
    ensures 'a' <= c <= 'z' ==> 'A' <= u <= 'Z' && u as int == c as int - 32
  {
    if 'a' <= c <= 'z' then (c as int - 32) as char else c
  }

  /** ASCII lower-casing of one character; every other character is kept. */
  function Lower(c: char): (l: char)
    ensures l != c <==> 'A' <= c <= 'Z'
    ensures 'A' <= c <= 'Z' ==> 'a' <= l <= 'z' && l as int == c as int + 32
  {
    if 'A' <= c <= 'Z' then (c as int + 32) as char else c
  }

  /** Lower-cases every character of a string. */
  function ToLower(s: string): (r: string)
    ensures |r| == |s|
    ensures forall i :: 0 <= i < |s| ==> r[i] == Lower(s[i])
  {
    if s == [] then [] else [Lower(s[0])] + ToLower(s[1..])
  }

  /** Number of occurrences of `c` in `s`. */
  function Count(s: string, c: char): nat
  {
    if s == [] then 0 else (if s[0] == c then 1 else 0) + Count(s[1..], c)
  }

  /** Removes every underscore, keeping the other characters in order. */
  function StripUnderscores(s: string): (r: string)
    ensures '_' !in r
    ensures |r| == |s| - Count(s, '_')
  {
    if s == [] then []
    else if s[0] == '_' then StripUnderscores(s[1..])
    else [s[0]] + StripUnderscores(s[1..])
  }

  /** Number of underscores at the front of `s`. */
  function LeadingUnderscores(s: string): (n: nat)
    ensures n <= |s|
    ensures forall i :: 0 <= i < n ==> s[i] == '_'
    ensures n < |s| ==> s[n] != '_'
  {
    if s == [] || s[0] != '_' then 0 else 1 + LeadingUnderscores(s[1..])
  }

  predicate AllUnderscores(s: string)
  {
    forall i :: 0 <= i < |s| ==> s[i] == '_'
  }

  /** The exported Go name of a JSON key: underscores removed, first remaining
      character upper-cased. The empty key maps to itself; a non-empty key made
      only of underscores is the failure case. */
  function ToExported(s: string): (r: Result<string>)
    ensures s == "" ==> r == Ok("")
    ensures r.Err? <==> s != "" && AllUnderscores(s)
    ensures r.Err? ==> r.fault == EmptyAfterStrip(s)
    ensures r.Ok? ==> '_' !in r.value && |r.value| == |s| - Count(s, '_')
    ensures r.Ok? && s != "" ==>
              var i := LeadingUnderscores(s);
              i < |s| && r.value == [Upper(s[i])] + StripUnderscores(s[i + 1..])
  {
    if s == "" then Ok("")
    else
      var t := StripUnderscores(s);
      StripSkipsLeading(s);
      if t == "" then Err(EmptyAfterStrip(s))
      else Ok([Upper(t[0])] + t[1..])
  }

  /** Stripping a string drops its leading underscores and keeps the first
      other character at the front. */
  lemma {:induction false} StripSkipsLeading(s: string)
    ensures var i := LeadingUnderscores(s);
            if i == |s| then StripUnderscores(s) == [] && AllUnderscores(s)
            else StripUnderscores(s) == [s[i]] + StripUnderscores(s[i + 1..]) && !AllUnderscores(s)
  {
    if s != [] && s[0] == '_' {
      StripSkipsLeading(s[1..]);
      var i := LeadingUnderscores(s[1..]);
      if i < |s[1..]| {
        assert s[1..][i + 1..] == s[i + 2..];
      }
    }
  }

  /** A string without underscores is its own stripped form. */
  lemma {:induction false} StripNoUnderscore(s: string)
    requires '_' !in s
    ensures StripUnderscores(s) == s
  {
    if s != [] {
      assert '_' !in s[1..] by { forall c | c in s[1..] ensures c in s {} }
      StripNoUnderscore(s[1..]);
    }
  }

  /** Normalisation is idempotent on its outputs. */
  lemma ToExportedIdempotent(s: string)
    requires ToExported(s).Ok?
    ensures ToExported(ToExported(s).value) == ToExported(s)
  {
    var t := ToExported(s).value;
    if s != "" {
      StripNoUnderscore(t);
      assert t[0] != '_';
      assert Upper(t[0]) == t[0];
      assert [t[0]] + t[1..] == t;
    }
  }

  /** Upper- and lower-casing undo each other on ASCII letters. */
  lemma CaseRoundTrip(c: char)
    ensures 'a' <= c <= 'z' ==> Lower(Upper(c)) == c
    ensures 'A' <= c <= 'Z' ==> Upper(Lower(c)) == c
  {
  }

  lemma ToLowerIdempotent(s: string)
    ensures ToLower(ToLower(s)) == ToLower(s)
  {
  }

  /** When the key has no underscore and no upper-case letter, its tag is the key. */
  lemma TagOfLowerKey(key: string)
    requires key != "" && '_' !in key && ToLower(key) == key
    ensures ToExported(key) == Ok([Upper(key[0])] + key[1..])
    ensures ToLower(ToExported(key).value) == key
  {
    StripNoUnderscore(key);
    var t := [Upper(key[0])] + key[1..];
    assert Lower(key[0]) == key[0];
    assert Lower(Upper(key[0])) == key[0];
    var l := ToLower(t);
    forall i | 0 <= i < |key| ensures l[i] == key[i] {
      if i > 0 { assert t[i] == key[i]; assert Lower(key[i]) == key[i]; }
    }
  }

  /** A tag equal to its key forces the key to be underscore-free and lower-case. */
  lemma KeyOfTag(key: string)
    requires ToExported(key).Ok?
    requires ToLower(ToExported(key).value) == key
    ensures '_' !in key && ToLower(key) == key
  {
    var t := ToExported(key).value;
    assert '_' !in t;
    LowerKeepsNoUnderscore(t);
    ToLowerIdempotent(t);
  }

  lemma LowerKeepsNoUnderscore(t: string)
    requires '_' !in t
    ensures '_' !in ToLower(t)
  {
    var l := ToLower(t);
    forall i | 0 <= i < |l| ensures l[i] != '_' {
      assert t[i] != '_';
    }
  }

  /** The struct tag is the lower-cased exported name. It reproduces the JSON
      key exactly when the key has no underscore and no upper-case letter. */
  lemma TagIsKeyIff(key: string)
    requires ToExported(key).Ok?
    ensures ToLower(ToExported(key).value) == key <==> '_' !in key && ToLower(key) == key
  {
    if ToLower(ToExported(key).value) == key {
      KeyOfTag(key);
    }
    if key != "" && '_' !in key && ToLower(key) == key {
      TagOfLowerKey(key);
    }
  }
}
