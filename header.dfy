/** EmailHeader.cs: one header (a name and a value) and the parameter
    ("fields") mapping derived from its value, cached behind a dirty flag. */
module Header {
  import opened Results
  import opened Text

  /** `Dictionary<string, string>` of the fields; a `null` value is `None`. */
  type Fields = map<string, Option<string>>

  /** What one token of the value contributes to the fields. */
  datatype TokenParse =
    | Malformed                                // the token is all '=': `field[1]` is out of range
    | Entry(key: string, value: Option<string>)

  /** What building the fields of a value gives. */
  datatype FieldParse =
    | NoFields                                 // `_fields` is set to null
    | Complete(entries: Fields)                // every token was added
    | Thrown(entries: Fields)                  // an exception, after adding `entries`

  /** A field value starting with a double quote loses every double quote. */
  function Unquote(v: string): (r: string)
    requires v != []
    ensures v[0] == '"' ==> '"' !in r
    ensures '"' !in v ==> r == v
  {
    if v[0] == '"' then RemoveAll(v, '"') else v
  }

  /** A value quoted with '"' loses its quotes and nothing else. */
  lemma UnquoteQuoted(v: string)
    requires '"' !in v
    ensures Unquote("\"" + v + "\"") == v
  {
    RemoveAllConcat("\"" + v, "\"", '"');
    RemoveAllConcat("\"", v, '"');
    RemoveAllChar('"', '"');
  }

  /** A token split on its first '=' (with the empty pieces dropped): a lone
      piece is a key without a value, two pieces a key and a value. */
  function ParseToken(t: string): (r: TokenParse)
    ensures r.Malformed? <==> OnlyOf(t, '=')
    ensures r.Entry? ==> r.key != [] && '=' !in r.key
  {
    SplitFirstEmpty(t, '=');
    var parts := SplitFirst(t, '=');
    if |parts| == 0 then Malformed
    else if |parts| == 1 then Entry(parts[0], None)
    else Entry(parts[0], Some(Unquote(parts[1])))
  }

  /** `key=value` gives the key and the value, unquoted when the value starts
      with '"'; further '=' right after the first are skipped, and a token
      ending in its '=' run maps the key to null. */
  lemma ParseTokenPair(key: string, w: string, v: string)
    requires key != [] && '=' !in key && OnlyOf(w, '=')
    requires v == [] || v[0] != '='
    ensures ParseToken(key + "=" + w + v) ==
              if v == [] then Entry(key, None)
              else Entry(key, Some(if v[0] == '"' then RemoveAll(v, '"') else v))
  {
    SplitFirstJoin(key, '=', w, v);
  }

  /** `key=` maps the key to null, as a bare token does. */
  lemma ParseTokenNoValue(key: string)
    requires key != [] && '=' !in key
    ensures ParseToken(key + "=") == Entry(key, None)
  {
    ParseTokenPair(key, [], []);
    assert key + "=" + [] + [] == key + "=";
  }

  /** '=' in front of a token are skipped: `=v` parses as `v` does. */
  lemma ParseTokenLeading(w: string, t: string)
    requires OnlyOf(w, '=')
    ensures ParseToken(w + t) == ParseToken(t)
  {
    SplitFirstSkip(w, t, '=');
    SplitFirstEmpty(w + t, '=');
    SplitFirstEmpty(t, '=');
  }

  /** A token without '=' is a key mapped to null. */
  lemma ParseTokenBare(key: string)
    requires key != [] && '=' !in key
    ensures ParseToken(key) == Entry(key, None)
  {
    SplitFirstWhole(key, '=');
  }

  /** Every token of the value, parsed. */
  function ParseTokens(ts: seq<string>): (ps: seq<TokenParse>)
    ensures |ps| == |ts|
    ensures forall i :: 0 <= i < |ts| ==> ps[i] == ParseToken(ts[i])
  {
    if ts == [] then [] else [ParseToken(ts[0])] + ParseTokens(ts[1..])
  }

  /** The `foreach` over the parsed tokens, from the fields added so far: each
      entry is added with `Dictionary.Add`, which throws on a key already present. */
  function AddEntries(ps: seq<TokenParse>, m: Fields): (r: FieldParse)
    ensures !r.NoFields?
    ensures m.Keys <= r.entries.Keys && |r.entries| <= |m| + |ps|
    ensures forall k :: k in m ==> r.entries[k] == m[k]
    decreases |ps|
  {
    if ps == [] then Complete(m)
    else if ps[0].Malformed? || ps[0].key in m then Thrown(m)
    else AddEntries(ps[1..], m[ps[0].key := ps[0].value])
  }

  /** `BuildFields` as a function of the value: no fields without '=' or with
      a single token, otherwise the tokens added one by one. */
  function ParseFields(value: string): (r: FieldParse)
    ensures '=' !in value ==> r == NoFields
    ensures r.NoFields? <==> '=' !in value || |Tokens(value)| == 1
  {
    if '=' !in value then NoFields
    else
      var ts := Tokens(value);
      if |ts| == 1 then NoFields else AddEntries(ParseTokens(ts), map[])
  }

  /** What the `Fields` getter returns, or `Fail` when it throws. */
  function FieldsOf(value: string): (r: Result<Option<Fields>>)
    ensures '=' !in value ==> r == Ok(None)
    ensures r.Ok? && r.value.Some? ==> '=' in value && |Tokens(value)| > 1
  {
    match ParseFields(value)
    case NoFields => Ok(None)
    case Complete(m) => Ok(Some(m))
    case Thrown(_) => Fail
  }

  predicate AllEntries(ps: seq<TokenParse>) {
    forall i :: 0 <= i < |ps| ==> ps[i].Entry?
  }

  /** Every token is a well-formed entry and no two tokens share a key. */
  predicate DistinctEntries(ps: seq<TokenParse>) {
    && AllEntries(ps)
    && forall i, j :: 0 <= i < j < |ps| ==> ps[i].key != ps[j].key
  }

  /** No token's key is in `m` already. */
  predicate FreshKeys(ps: seq<TokenParse>, m: Fields)
    requires AllEntries(ps)
  {
    forall i :: 0 <= i < |ps| ==> ps[i].key !in m
  }

  function KeySet(ps: seq<TokenParse>): set<string>
    requires AllEntries(ps)
  {
    set i | 0 <= i < |ps| :: ps[i].key
  }

  /** `e` holds exactly one entry per token: its key, mapped to its value. */
  predicate Describes(e: Fields, ps: seq<TokenParse>)
    requires AllEntries(ps)
  {
    && e.Keys == KeySet(ps)
    && forall i :: 0 <= i < |ps| ==> e[ps[i].key] == ps[i].value
  }

  /** The side conditions of AddEntries, peeled by one token. */
  lemma DistinctCons(ps: seq<TokenParse>, m: Fields)
    requires ps != [] && ps[0].Entry? && ps[0].key !in m
    ensures (DistinctEntries(ps) && FreshKeys(ps, m)) <==>
            (DistinctEntries(ps[1..]) && FreshKeys(ps[1..], m[ps[0].key := ps[0].value]))
  {
    var rest := ps[1..];
    if DistinctEntries(rest) && FreshKeys(rest, m[ps[0].key := ps[0].value]) {
      assert AllEntries(ps) by {
        forall i | 0 <= i < |ps| ensures ps[i].Entry? {
          if i > 0 { assert ps[i] == rest[i - 1]; }
        }
      }
      forall i, j | 0 <= i < j < |ps| ensures ps[i].key != ps[j].key {
        assert ps[j] == rest[j - 1];
        if i > 0 { assert ps[i] == rest[i - 1]; }
      }
      forall i | 0 <= i < |ps| ensures ps[i].key !in m {
        if i > 0 { assert ps[i] == rest[i - 1]; }
      }
    }
    if DistinctEntries(ps) && FreshKeys(ps, m) {
      forall i | 0 <= i < |rest| ensures rest[i].key != ps[0].key {
        assert rest[i] == ps[i + 1];
      }
    }
  }

  /** Adding entries to `m` completes exactly when they are well formed, have
      distinct keys and none of the keys is in `m`. */
  lemma {:induction false} AddEntriesComplete(ps: seq<TokenParse>, m: Fields)
    ensures AddEntries(ps, m).Complete? <==> DistinctEntries(ps) && FreshKeys(ps, m)
    decreases |ps|
  {
    if ps != [] {
      if ps[0].Entry? && ps[0].key !in m {
        AddEntriesComplete(ps[1..], m[ps[0].key := ps[0].value]);
        DistinctCons(ps, m);
      }
    }
  }

  lemma KeySetCons(ps: seq<TokenParse>)
    requires ps != [] && AllEntries(ps)
    ensures AllEntries(ps[1..]) && KeySet(ps) == {ps[0].key} + KeySet(ps[1..])
  {
    var rest := ps[1..];
    assert AllEntries(rest) by {
      forall i | 0 <= i < |rest| ensures rest[i].Entry? {
        assert rest[i] == ps[i + 1];
      }
    }
    forall x | x in KeySet(ps) ensures x in {ps[0].key} + KeySet(rest) {
      var i :| 0 <= i < |ps| && ps[i].key == x;
      if i > 0 { assert rest[i - 1].key == x; }
    }
    forall x | x in KeySet(rest) ensures x in KeySet(ps) {
      var i :| 0 <= i < |rest| && rest[i].key == x;
      assert ps[i + 1].key == x;
    }
  }

  /** A completed build is `m` plus one entry per token, each token's key
      mapped to its value. */
  lemma AddEntriesDescribe(ps: seq<TokenParse>, m: Fields)
    requires AddEntries(ps, m).Complete?
    ensures AllEntries(ps)
    ensures AddEntries(ps, m).entries.Keys == m.Keys + KeySet(ps)
    ensures forall i :: 0 <= i < |ps| ==> AddEntries(ps, m).entries[ps[i].key] == ps[i].value
  {
    AddEntriesKeys(ps, m);
    AddEntriesValues(ps, m);
  }

  lemma {:induction false} AddEntriesKeys(ps: seq<TokenParse>, m: Fields)
    requires AddEntries(ps, m).Complete?
    ensures AllEntries(ps)
    ensures AddEntries(ps, m).entries.Keys == m.Keys + KeySet(ps)
    decreases |ps|
  {
    AddEntriesComplete(ps, m);
    if ps != [] {
      var m' := m[ps[0].key := ps[0].value];
      AddEntriesKeys(ps[1..], m');
      KeySetCons(ps);
    }
  }

  lemma {:induction false} AddEntriesValues(ps: seq<TokenParse>, m: Fields)
    requires AddEntries(ps, m).Complete?
    ensures AllEntries(ps)
    ensures forall i :: 0 <= i < |ps| ==> ps[i].key in AddEntries(ps, m).entries
                                          && AddEntries(ps, m).entries[ps[i].key] == ps[i].value
    decreases |ps|
  {
    AddEntriesComplete(ps, m);
    if ps != [] {
      var m' := m[ps[0].key := ps[0].value];
      AddEntriesValues(ps[1..], m');
      EntriesCons(ps, m', AddEntries(ps[1..], m').entries);
    }
  }

  /** Entries for the first token (kept from `m'`) and for the others give
      entries for all. */
  lemma EntriesCons(ps: seq<TokenParse>, m': Fields, e: Fields)
    requires ps != [] && AllEntries(ps) && ps[0].key in m' && m'[ps[0].key] == ps[0].value
    requires forall k :: k in m' ==> k in e && e[k] == m'[k]
    requires forall i :: 0 <= i < |ps[1..]| ==> ps[1..][i].key in e && e[ps[1..][i].key] == ps[1..][i].value
    ensures forall i :: 0 <= i < |ps| ==> ps[i].key in e && e[ps[i].key] == ps[i].value
  {
    forall i | 0 <= i < |ps| ensures ps[i].key in e && e[ps[i].key] == ps[i].value {
      if i > 0 { assert ps[i] == ps[1..][i - 1]; }
    }
  }

  /** The fields are built exactly when the value has '=', more than one
      token, every token is well formed and the keys are distinct; they then
      hold one entry per token. */
  lemma ParseFieldsComplete(value: string)
    ensures ParseFields(value).Complete? <==>
              '=' in value && |Tokens(value)| > 1 && DistinctEntries(ParseTokens(Tokens(value)))
    ensures ParseFields(value).Complete? ==>
              AllEntries(ParseTokens(Tokens(value)))
              && Describes(ParseFields(value).entries, ParseTokens(Tokens(value)))
  {
    var ts := Tokens(value);
    if '=' in value && |ts| > 1 {
      var ps := ParseTokens(ts);
      assert ParseFields(value) == AddEntries(ps, map[]);
      AddEntriesFromEmpty(ps);
    }
  }

  lemma AddEntriesFromEmpty(ps: seq<TokenParse>)
    ensures AddEntries(ps, map[]).Complete? <==> DistinctEntries(ps)
    ensures AddEntries(ps, map[]).Complete? ==> AllEntries(ps) && Describes(AddEntries(ps, map[]).entries, ps)
  {
    AddEntriesComplete(ps, map[]);
    if AddEntries(ps, map[]).Complete? {
      AddEntriesDescribe(ps, map[]);
    }
  }

  /** Two tokens with one key make the build throw (`Dictionary.Add`): a later
      occurrence does not overwrite an earlier one. */
  lemma DuplicateKeyThrows(value: string, i: nat, j: nat)
    requires '=' in value
    requires i < j < |Tokens(value)|
    requires ParseToken(Tokens(value)[i]).Entry? && ParseToken(Tokens(value)[j]).Entry?
    requires ParseToken(Tokens(value)[i]).key == ParseToken(Tokens(value)[j]).key
    ensures ParseFields(value).Thrown? && FieldsOf(value) == Fail
  {
    ParseFieldsComplete(value);
  }

  lemma AddEntriesAt(ps: seq<TokenParse>, i: nat, m: Fields)
    requires i < |ps|
    ensures AddEntries(ps[i..], m) ==
              if ps[i].Malformed? || ps[i].key in m then Thrown(m)
              else AddEntries(ps[i + 1..], m[ps[i].key := ps[i].value])
  {
    assert ps[i..][0] == ps[i] && ps[i..][1..] == ps[i + 1..];
  }

  /** A token followed by '=' and a second token is itself one token. */
  lemma PairIsToken(key: string, v: string)
    requires IsToken(key) && IsToken(v)
    ensures IsToken(key + "=" + v)
  {
    var t := key + "=" + v;
    forall j | 0 <= j < |t| ensures !IsFieldSeparator(t[j]) {
      if j < |key| {
        assert t[j] == key[j];
      } else if j > |key| {
        assert t[j] == v[j - |key| - 1];
      }
    }
  }

  lemma TwoTokens(a: string, b: string)
    requires IsToken(a) && IsToken(b)
    ensures Tokens(a + "; " + b) == [a, b]
  {
    var ts := [a, b];
    assert Joined(ts, "; ") == a + "; " + b by {
      assert ts[1..] == [b];
    }
    TokensOfJoined(ts, "; ");
  }

  lemma ParseTwoTokens(mime: string, key: string, v: string)
    requires IsToken(mime) && '=' !in mime
    requires IsToken(key) && '=' !in key
    requires IsToken(v) && v[0] != '='
    ensures ParseTokens([mime, key + "=" + v]) == [Entry(mime, None), Entry(key, Some(Unquote(v)))]
  {
    var ts := [mime, key + "=" + v];
    ParseTokenBare(mime);
    ParseTokenValue(key, v);
    var ps := ParseTokens(ts);
    assert ps == [ps[0], ps[1]];
  }

  lemma ParseTokenValue(key: string, v: string)
    requires key != [] && '=' !in key && v != [] && v[0] != '='
    ensures ParseToken(key + "=" + v) == Entry(key, Some(Unquote(v)))
  {
    SplitFirstJoin(key, '=', [], v);
    assert key + ['='] + [] + v == key + "=" + v;
  }

  /** A media type followed by one `key=value` parameter gives exactly two
      fields: the media type mapped to null and the key mapped to its
      unquoted value. */
  lemma TypeAndParameter(mime: string, key: string, v: string)
    requires IsToken(mime) && '=' !in mime
    requires IsToken(key) && '=' !in key && key != mime
    requires IsToken(v) && v[0] != '='
    ensures ParseFields(mime + "; " + key + "=" + v) == Complete(map[mime := None, key := Some(Unquote(v))])
    ensures FieldsOf(mime + "; " + key + "=" + v) == Ok(Some(map[mime := None, key := Some(Unquote(v))]))
  {
    var pair := key + "=" + v;
    var value := mime + "; " + pair;
    assert mime + "; " + key + "=" + v == value;
    PairIsToken(key, v);
    TwoTokens(mime, pair);
    assert value[|mime| + 2 + |key|] == '=';
    ParseTwoTokens(mime, key, v);
    AddTwoEntries(mime, None, key, Some(Unquote(v)));
  }

  /** A parameter with nothing after its '=' maps its key to null. */
  lemma TypeAndEmptyParameter(mime: string, key: string)
    requires IsToken(mime) && '=' !in mime
    requires IsToken(key) && '=' !in key && key != mime
    ensures FieldsOf(mime + "; " + key + "=") == Ok(Some(map[mime := None, key := None]))
  {
    EmptyParameterTokens(mime, key);
    ParseBareAndEmpty(mime, key);
    AddTwoEntries(mime, None, key, None);
    assert ParseFields(mime + "; " + key + "=") == Complete(map[mime := None, key := None]);
  }

  lemma EmptyParameterTokens(mime: string, key: string)
    requires IsToken(mime) && '=' !in mime
    requires IsToken(key) && '=' !in key
    ensures '=' in mime + "; " + key + "="
    ensures Tokens(mime + "; " + key + "=") == [mime, key + "="]
  {
    var pair := key + "=";
    var value := mime + "; " + pair;
    assert mime + "; " + key + "=" == value;
    assert IsToken(pair) by {
      forall j | 0 <= j < |pair| ensures !IsFieldSeparator(pair[j]) {
        if j < |key| { assert pair[j] == key[j]; }
      }
    }
    TwoTokens(mime, pair);
    assert value[|mime| + 2 + |key|] == '=';
  }

  lemma ParseBareAndEmpty(mime: string, key: string)
    requires IsToken(mime) && '=' !in mime
    requires key != [] && '=' !in key
    ensures ParseTokens([mime, key + "="]) == [Entry(mime, None), Entry(key, None)]
  {
    ParseTokenBare(mime);
    ParseTokenNoValue(key);
    var ps := ParseTokens([mime, key + "="]);
    assert ps == [ps[0], ps[1]];
  }

  lemma AddTwoEntries(k1: string, v1: Option<string>, k2: string, v2: Option<string>)
    requires k1 != k2
    ensures AddEntries([Entry(k1, v1), Entry(k2, v2)], map[]) == Complete(map[k1 := v1, k2 := v2])
  {
    var ps := [Entry(k1, v1), Entry(k2, v2)];
    var m1: Fields := map[k1 := v1];
    assert ps[1..] == [Entry(k2, v2)];
    assert k2 !in m1;
    assert AddEntries(ps, map[]) == AddEntries([Entry(k2, v2)], m1);
    assert [Entry(k2, v2)][1..] == [];
    assert AddEntries([Entry(k2, v2)], m1) == AddEntries([], m1[k2 := v2]);
  }

  /** `Value += " "` after ';', then `Value += value.Trim()`. */
  function Appended(v: string, s: string): (r: string)
    requires v != []
    ensures |r| >= |v| && r[..|v|] == v
  {
    v + (if v[|v| - 1] == ';' then " " else "") + Trim(s)
  }

  /** `ToString()`. */
  function HeaderLine(name: string, value: string): string {
    name + ": " + value
  }

  /** The state a rebuild leaves behind: whether it completed without
      throwing, whether the dirty flag is still raised, and the dictionary. */
  predicate AfterBuild(value: string, ok: bool, changed: bool, fields: Option<Fields>) {
    match ParseFields(value)
    case NoFields => ok && changed && fields == None
    case Complete(m) => ok && !changed && fields == Some(m)
    case Thrown(m) => !ok && changed && fields == Some(m)
  }

  class EmailHeader {
    var name: string
    var value: string
    var valueChanged: bool
    var fields: Option<Fields>

    /** The cache is trusted only while the dirty flag is down: then it holds
        what building the fields of the current value gives. */
    ghost predicate Valid()
      reads this
    {
      !valueChanged ==> FieldsOf(value) == Ok(fields)
    }

    /** `EmailHeader()`. */
    constructor ()
      ensures Valid()
      ensures name == "" && value == "" && !valueChanged && fields == None
    {
      name := "";
      value := "";
      valueChanged := false;
      fields := None;
    }

    /** `EmailHeader(string name, string value)`. */
    constructor WithValue(name: string, value: string)
      ensures Valid()
      ensures this.name == name && this.value == value && valueChanged && fields == None
    {
      this.name := name;
      this.value := value;
      valueChanged := true;
      fields := None;
    }

    /** `EmailHeader(string[] header)`: more than two items throw, and so does
        an empty array (`header[0]`); a single item leaves the value "". */
    static method FromArray(header: seq<string>) returns (r: Result<EmailHeader>)
      ensures r.Ok? <==> 1 <= |header| <= 2
      ensures r.Ok? ==> fresh(r.value) && r.value.Valid() && r.value.name == header[0]
      ensures r.Ok? ==> r.value.value == (if |header| == 2 then header[1] else "")
      ensures r.Ok? ==> r.value.valueChanged == (|header| == 2) && r.value.fields == None
    {
      var h := new EmailHeader();
      if |header| > 2 {
        return Fail;
      }
      if |header| == 0 {
        return Fail;
      }
      h.name := header[0];
      if |header| == 2 {
        h.SetValue(header[1]);
      }
      return Ok(h);
    }

    /** The `Value` setter: always raises the dirty flag. */
    method SetValue(v: string)
      requires Valid()
      modifies this
      ensures Valid()
      ensures value == v && valueChanged && name == old(name) && fields == old(fields)
    {
      valueChanged := true;
      value := v;
    }

    /** `AppendValue`: throws on an empty value (`Value[Value.Length - 1]`);
        otherwise inserts a space after a trailing ';' and appends the trimmed text. */
    method AppendValue(s: string) returns (ok: bool)
      requires Valid()
      modifies this
      ensures Valid()
      ensures ok <==> old(value) != []
      ensures ok ==> value == Appended(old(value), s) && valueChanged
      ensures ok ==> name == old(name) && fields == old(fields)
      ensures !ok ==> unchanged(this)
    {
      if |value| == 0 {
        return false;
      }
      if value[|value| - 1] == ';' {
        SetValue(value + " ");
      }
      SetValue(value + Trim(s));
      return true;
    }

    /** `BuildFields`: nothing happens while the dirty flag is down; otherwise
        the dictionary is emptied and refilled token by token. The flag is
        lowered only when every token was added. */
    method BuildFields() returns (ok: bool)
      requires Valid()
      modifies this
      ensures Valid()
      ensures name == old(name) && value == old(value)
      ensures !old(valueChanged) ==> ok && !valueChanged && fields == old(fields)
      ensures old(valueChanged) ==> AfterBuild(value, ok, valueChanged, fields)
    {
      if !valueChanged {
        return true;
      }
      fields := Some(map[]);
      if '=' !in value {
        fields := None;
        return true;
      }
      var tokens := Tokens(value);
      if |tokens| == 1 {
        fields := None;
        return true;
      }
      var m;
      ok, m := AddTokens(tokens);
      fields := Some(m);
      if ok {
        valueChanged := false;
      }
    }

    /** The `foreach` of `BuildFields` over the tokens: each token is split on
        its first '=' and added to the dictionary; a token made only of '='
        and a key already present throw, leaving the entries added before. */
    static method AddTokens(tokens: seq<string>) returns (ok: bool, m: Fields)
      ensures AddEntries(ParseTokens(tokens), map[]) == if ok then Complete(m) else Thrown(m)
    {
      ghost var ps := ParseTokens(tokens);
      assert ps[0..] == ps;
      m := map[];
      var i := 0;
      while i < |tokens|
        invariant 0 <= i <= |tokens|
        invariant AddEntries(ps[i..], m) == AddEntries(ps, map[])
      {
        AddEntriesAt(ps, i, m);
        var field := SplitFirst(tokens[i], '=');
        if |field| == 1 {
          if field[0] in m {
            return false, m;
          }
          m := m[field[0] := None];
        } else {
          if |field| == 0 {
            return false, m;
          }
          var v := field[1];
          if v[0] == '"' {
            v := RemoveAll(v, '"');
          }
          assert ParseToken(tokens[i]) == Entry(field[0], Some(v));
          if field[0] in m {
            return false, m;
          }
          m := m[field[0] := Some(v)];
        }
        i := i + 1;
      }
      assert ps[i..] == [];
      return true, m;
    }

    /** The `Fields` getter: builds if needed, then returns the dictionary;
        throws when the build throws. */
    method GetFields() returns (r: Result<Option<Fields>>)
      requires Valid()
      modifies this
      ensures Valid()
      ensures name == old(name) && value == old(value)
      ensures r == FieldsOf(value)
      ensures !old(valueChanged) ==> !valueChanged && fields == old(fields)
      ensures old(valueChanged) ==> AfterBuild(value, r.Ok?, valueChanged, fields)
    {
      var ok := BuildFields();
      if !ok {
        return Fail;
      }
      return Ok(fields);
    }

    /** `ToString()`. */
    function ToString(): string
      reads this
    {
      HeaderLine(name, value)
    }
  }
}
