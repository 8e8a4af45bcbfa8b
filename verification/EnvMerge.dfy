/** Environment editing that survives re-execution: guarded appends (envmod.c, inject.c) and the
    merge of kept variables into a rebuilt environment (exec_wrap.c). */
module EnvMerge {
  import opened Bytes

  const ENV_MAX := 8192

  // ------------------------ Guarded edits ------------------------

  /** strstr(s, marker) != NULL. */
  ghost predicate Contains(s: string, marker: string) {
    exists i :: 0 <= i <= |s| && marker <= s[i..]
  }

  lemma ContainedInFront(s: string, rest: string, marker: string)
    requires Contains(s, marker)
    ensures Contains(s + rest, marker)
  {
    var i :| 0 <= i <= |s| && marker <= s[i..];
    assert (s + rest)[i..] == s[i..] + rest;
  }

  lemma ContainedBehind(front: string, s: string, marker: string)
    requires Contains(s, marker)
    ensures Contains(front + s, marker)
  {
    var i :| 0 <= i <= |s| && marker <= s[i..];
    assert (front + s)[|front| + i..] == s[i..];
  }

  /** The guard of the edits; a caller may pass no marker at all. */
  ghost predicate Marked(cur: Option<string>, marker: Option<string>) {
    cur.Some? && marker.Some? && Contains(cur.value, marker.value)
  }

  /** pw_env_append: the variable afterwards. */
  ghost function Append(cur: Option<string>, addition: string, marker: Option<string>): Option<string> {
    if Marked(cur, marker) then cur
    else if cur == None || cur == Some("") then Some(addition)
    else if |cur.value| + |addition| + 1 > ENV_MAX then cur
    else Some(cur.value + addition)
  }

  /** pw_env_prepend. */
  ghost function Prepend(cur: Option<string>, addition: string, marker: Option<string>,
                         separator: char): Option<string> {
    if Marked(cur, marker) then cur
    else if cur == None || cur == Some("") then Some(addition)
    else if |cur.value| + |addition| + 2 > ENV_MAX then cur
    else Some(addition + [separator] + cur.value)
  }

  const LABEL_KEY := "procwatch.label="

  /** pw_attach_label_to_otel: the attribute is cut to its own buffer. */
  ghost function AttachLabel(cur: Option<string>, name: string): Option<string> {
    var attr := Take(LABEL_KEY + name, 159);
    if name == "" || Marked(cur, Some(LABEL_KEY)) then cur
    else if cur == None || cur == Some("") then Some(attr)
    else if |cur.value| + 1 + |attr| + 1 > ENV_MAX then cur
    else Some(cur.value + "," + attr)
  }

  method IsMarked(cur: Option<string>, marker: Option<string>) returns (marked: bool)
    ensures marked <==> Marked(cur, marker)
  {
    if cur.None? || marker.None? { return false; }
    var hit := StrStr(cur.value, marker.value, 0);
    return hit >= 0;
  }

  method EnvAppend(cur: Option<string>, addition: string, marker: Option<string>)
      returns (next: Option<string>, rc: int)
    ensures next == Append(cur, addition, marker)
    ensures rc == 0 || (rc == -1 && next == cur)
    ensures rc == -1 <==> !Marked(cur, marker) && cur.Some? && cur.value != "" && |cur.value| + |addition| >= ENV_MAX
  {
    var marked := IsMarked(cur, marker);
    if marked { return cur, 0; }
    if cur == None || cur == Some("") { return Some(addition), 0; }
    if |cur.value| + |addition| + 1 > ENV_MAX { return cur, -1; }
    return Some(cur.value + addition), 0;
  }

  method EnvPrepend(cur: Option<string>, addition: string, marker: Option<string>, separator: char)
      returns (next: Option<string>, rc: int)
    ensures next == Prepend(cur, addition, marker, separator)
    ensures rc == 0 || (rc == -1 && next == cur)
    ensures rc == -1 <==>
            !Marked(cur, marker) && cur.Some? && cur.value != "" && |cur.value| + 1 + |addition| >= ENV_MAX
  {
    var marked := IsMarked(cur, marker);
    if marked { return cur, 0; }
    if cur == None || cur == Some("") { return Some(addition), 0; }
    if |cur.value| + |addition| + 2 > ENV_MAX { return cur, -1; }
    return Some(addition + [separator] + cur.value), 0;
  }

  method AttachLabelToOtel(cur: Option<string>, name: string) returns (next: Option<string>)
    ensures next == AttachLabel(cur, name)
  {
    if name == "" { return cur; }
    var attr := Take(LABEL_KEY + name, 159);
    var marked := IsMarked(cur, Some(LABEL_KEY));
    if marked { return cur; }
    if cur == None || cur == Some("") { return Some(attr); }
    if |cur.value| + 1 + |attr| + 1 > ENV_MAX { return cur; }
    return Some(cur.value + "," + attr);
  }

  predicate EndsWith(s: string, tail: string) {
    |tail| <= |s| && s[|s| - |tail|..] == tail
  }

  /** An append keeps the old value in front of what it adds, and adds all of it or nothing. */
  lemma AppendKeepsFront(cur: string, addition: string, marker: Option<string>)
    requires cur != ""
    ensures var next := Append(Some(cur), addition, marker);
            && next.Some? && cur <= next.value
            && (next.value != cur <==> addition != "" && !Marked(Some(cur), marker) && |cur| + |addition| < 8192)
            && (next.value != cur ==> EndsWith(next.value, addition) && |next.value| == |cur| + |addition|)
  {
    if addition == "" { assert cur + addition == cur; } else { assert |cur + addition| > |cur|; }
  }

  /** A prepend keeps the old value behind the addition and the separator. */
  lemma PrependKeepsBack(cur: string, addition: string, marker: Option<string>, separator: char)
    requires cur != ""
    ensures var next := Prepend(Some(cur), addition, marker, separator);
            && next.Some? && EndsWith(next.value, cur)
            && (next.value != cur <==> !Marked(Some(cur), marker) && |cur| + |addition| + 1 < 8192)
            && (next.value != cur ==>
                  && |next.value| == |addition| + 1 + |cur|
                  && addition <= next.value && next.value[|addition|] == separator)
  {
  }

  /** A label is put behind the other attributes once, whole if its name has at most 143 characters. */
  lemma LabelIsAttached(cur: string, name: string)
    requires cur != "" && name != "" && |name| <= 143
    ensures var next := AttachLabel(Some(cur), name);
            && next.Some? && cur <= next.value
            && (next.value != cur <==> !Contains(cur, "procwatch.label=") && |cur| + |name| + 18 <= 8192)
            && (next.value != cur ==> next.value[|cur|..] == ",procwatch.label=" + name)
    ensures AttachLabel(None, name) == AttachLabel(Some(""), name) == Some("procwatch.label=" + name)
  {
    assert |LABEL_KEY| == 16;
    var attr := LABEL_KEY + name;
    assert Take(attr, 159) == attr;
    assert cur + "," + attr == cur + ("," + attr);
    assert ("," + LABEL_KEY) + name == "," + attr;
    assert "," + LABEL_KEY == ",procwatch.label=";
  }

  /** An edit whose addition carries the marker is made at most once. */
  lemma AppendOnce(cur: Option<string>, addition: string, marker: Option<string>)
    requires marker.Some? && Contains(addition, marker.value)
    ensures Append(Append(cur, addition, marker), addition, marker) == Append(cur, addition, marker)
  {
    if cur.Some? { ContainedBehind(cur.value, addition, marker.value); }
  }

  lemma PrependOnce(cur: Option<string>, addition: string, marker: Option<string>, separator: char)
    requires marker.Some? && Contains(addition, marker.value)
    ensures Prepend(Prepend(cur, addition, marker, separator), addition, marker, separator)
            == Prepend(cur, addition, marker, separator)
  {
    if cur.Some? {
      ContainedInFront(addition, [separator] + cur.value, marker.value);
      assert addition + [separator] + cur.value == addition + ([separator] + cur.value);
    }
  }

  lemma AttachLabelOnce(cur: Option<string>, name: string)
    ensures AttachLabel(AttachLabel(cur, name), name) == AttachLabel(cur, name)
  {
    var attr := Take(LABEL_KEY + name, 159);
    assert Contains(attr, LABEL_KEY) by { assert attr[0..] == attr && LABEL_KEY <= attr; }
    if cur.Some? { ContainedBehind(cur.value + ",", attr, LABEL_KEY); }
  }

  /** A second run leaves a variable of the first one alone if and only if the addition is empty,
      there is no more room, or the guard holds by then. Without a marker it never does. */
  lemma AppendTwiceIff(cur: string, addition: string, marker: Option<string>)
    requires cur != "" && !Marked(Some(cur), marker) && |cur| + |addition| < ENV_MAX
    ensures Append(Append(Some(cur), addition, marker), addition, marker) == Append(Some(cur), addition, marker)
            <==> addition == "" || |cur| + 2 * |addition| >= ENV_MAX || Marked(Some(cur + addition), marker)
  {
    assert |cur + addition + addition| == |cur| + 2 * |addition|;
    if addition == "" { assert cur + addition == cur && cur + addition + addition == cur; }
  }

  // ------------------------ Merging kept variables ------------------------

  const KEEP_KEYS: seq<string> := [
    "PROCWATCH_LABEL", "PROCWATCH_SERVICE", "PROCWATCH_ENDPOINT", "PROCWATCH_AGENT_DIR", "PROCWATCH_POD",
    "PROCWATCH_METRIC_INTERVAL", "PROCWATCH_INJECT_DEBUG", "LD_PRELOAD", "OTEL_SERVICE_NAME",
    "OTEL_EXPORTER_OTLP_ENDPOINT", "OTEL_EXPORTER_OTLP_PROTOCOL", "OTEL_RESOURCE_ATTRIBUTES",
    "OTEL_TRACES_EXPORTER", "OTEL_METRICS_EXPORTER", "OTEL_LOGS_EXPORTER", "JAVA_TOOL_OPTIONS", "PYTHONPATH"]

  predicate Defines(entry: string, key: string) {
    key + "=" <= entry
  }

  predicate HasKey(envp: seq<string>, key: string) {
    exists i :: 0 <= i < |envp| && Defines(envp[i], key)
  }

  /** getenv in the calling process; an unset variable reads like an empty one here. */
  type Getenv = string -> string

  predicate Missing(envp: seq<string>, key: string, env: Getenv) {
    env(key) != "" && !HasKey(envp, key)
  }

  function Entry(key: string, env: Getenv): string {
    key + "=" + env(key)
  }

  /** The entries a merge adds for `keys`. */
  function Additions(envp: seq<string>, keys: seq<string>, env: Getenv): seq<string> {
    if keys == [] then []
    else (if Missing(envp, keys[0], env) then [Entry(keys[0], env)] else []) + Additions(envp, keys[1..], env)
  }

  function Merged(envp: seq<string>, keys: seq<string>, env: Getenv): seq<string> {
    envp + Additions(envp, keys, env)
  }

  method EnvHasKey(envp: seq<string>, key: string) returns (found: bool)
    ensures found <==> HasKey(envp, key)
  {
    for i := 0 to |envp|
      invariant forall k :: 0 <= k < i ==> !Defines(envp[k], key)
    {
      if Defines(envp[i], key) { return true; }
    }
    return false;
  }

  /** merge_env: None when there is nothing to add. The first pass sizes the array that the second
      pass fills to the last slot. */
  method MergeEnv(envp: seq<string>, keys: seq<string>, env: Getenv) returns (out: Option<seq<string>>)
    ensures out == if Additions(envp, keys, env) == [] then None else Some(Merged(envp, keys, env))
  {
    hide Additions;
    var n := |envp|;
    var add := CountMissing(envp, keys, env);
    if add == 0 { return None; }
    var arr := new string[n + add](_ => "");
    FillMerged(arr, envp, keys, env);
    return Some(arr[..]);
  }

  /** The counting pass. */
  method CountMissing(envp: seq<string>, keys: seq<string>, env: Getenv) returns (add: nat)
    ensures add == |Additions(envp, keys, env)|
  {
    hide Missing, Entry;
    add := 0;
    assert keys[0..] == keys;
    for i := 0 to |keys|
      invariant add + |Additions(envp, keys[i..], env)| == |Additions(envp, keys, env)|
    {
      assert keys[i..][1..] == keys[i + 1..];
      var missing := IsMissing(envp, keys[i], env);
      if missing { add := add + 1; }
    }
  }

  /** The filling pass: every write is inside the array, and the array ends up full. */
  method FillMerged(arr: array<string>, envp: seq<string>, keys: seq<string>, env: Getenv)
    requires arr.Length == |Merged(envp, keys, env)|
    modifies arr
    ensures arr[..] == Merged(envp, keys, env)
  {
    hide Missing, Entry;
    var j := 0;
    for i := 0 to |envp|
      invariant j == i && arr[..j] == envp[..i]
    {
      arr[j] := envp[i];
      j := j + 1;
    }
    assert arr[..j] == envp;
    assert keys[0..] == keys;
    for i := 0 to |keys|
      invariant 0 <= j <= arr.Length
      invariant arr[..j] + Additions(envp, keys[i..], env) == Merged(envp, keys, env)
    {
      assert keys[i..][1..] == keys[i + 1..];
      ghost var before, rest := arr[..j], Additions(envp, keys[i + 1..], env);
      var missing := IsMissing(envp, keys[i], env);
      if missing {
        assert |before + ([Entry(keys[i], env)] + rest)| == arr.Length;
        arr[j] := Entry(keys[i], env);
        j := j + 1;
        assert arr[..j] == before + [Entry(keys[i], env)];
        assert before + ([Entry(keys[i], env)] + rest) == arr[..j] + rest;
      } else {
        assert [] + rest == rest;
      }
    }
    assert |arr[..j]| == arr.Length;
    assert arr[..] == arr[..j];
  }

  method IsMissing(envp: seq<string>, key: string, env: Getenv) returns (missing: bool)
    ensures missing <==> Missing(envp, key, env)
  {
    if env(key) == "" { return false; }
    var has := EnvHasKey(envp, key);
    return !has;
  }

  predicate PlainName(key: string) {
    forall i :: 0 <= i < |key| ==> key[i] != '='
  }

  lemma DefinesOne(key: string, other: string, value: string)
    requires PlainName(key) && PlainName(other)
    ensures Defines(other + "=" + value, key) <==> key == other
  {
    var e, k := other + "=" + value, key + "=";
    if key == other {
      assert e[..|k|] == k;
    } else if |key| < |other| {
      assert e[|key|] == other[|key|] && k[|key|] == '=';
    } else if |key| > |other| {
      assert e[|other|] == '=' && k[|other|] == key[|other|];
    } else {
      var i :| 0 <= i < |key| && key[i] != other[i];
      assert e[i] == other[i] && k[i] == key[i];
    }
  }

  lemma {:induction false} AdditionsDefine(envp: seq<string>, keys: seq<string>, env: Getenv, key: string)
    requires PlainName(key) && forall i :: 0 <= i < |keys| ==> PlainName(keys[i])
    ensures HasKey(Additions(envp, keys, env), key) <==> key in keys && Missing(envp, key, env)
  {
    hide Missing, Defines;
    if keys != [] {
      AdditionsDefine(envp, keys[1..], env, key);
      var first := if Missing(envp, keys[0], env) then [Entry(keys[0], env)] else [];
      HasKeyConcat(first, Additions(envp, keys[1..], env), key);
      DefinesOne(key, keys[0], env(keys[0]));
      assert HasKey(first, key) <==> Missing(envp, keys[0], env) && key == keys[0] by {
        if first != [] { assert first[0] == Entry(keys[0], env); }
      }
      assert keys == [keys[0]] + keys[1..];
    }
  }

  lemma HasKeyConcat(a: seq<string>, b: seq<string>, key: string)
    ensures HasKey(a + b, key) <==> HasKey(a, key) || HasKey(b, key)
  {
    hide Defines;
    if HasKey(a, key) {
      var i :| 0 <= i < |a| && Defines(a[i], key);
      assert Defines((a + b)[i], key);
    }
    if HasKey(b, key) {
      var i :| 0 <= i < |b| && Defines(b[i], key);
      assert Defines((a + b)[|a| + i], key);
    }
    if HasKey(a + b, key) {
      var i :| 0 <= i < |a + b| && Defines((a + b)[i], key);
      if i >= |a| { assert Defines(b[i - |a|], key); } else { assert Defines(a[i], key); }
    }
  }

  /** After a merge every kept key with a value is defined, and no key gained or lost otherwise. */
  lemma MergedDefines(envp: seq<string>, keys: seq<string>, env: Getenv, key: string)
    requires PlainName(key) && forall i :: 0 <= i < |keys| ==> PlainName(keys[i])
    ensures HasKey(Merged(envp, keys, env), key) <==> HasKey(envp, key) || (key in keys && env(key) != "")
  {
    hide HasKey;
    AdditionsDefine(envp, keys, env, key);
    HasKeyConcat(envp, Additions(envp, keys, env), key);
  }

  lemma {:induction false} NothingMissing(envp: seq<string>, keys: seq<string>, env: Getenv)
    requires forall i :: 0 <= i < |keys| ==> !Missing(envp, keys[i], env)
    ensures Additions(envp, keys, env) == []
  {
    hide Missing;
    if keys != [] {
      assert forall i :: 0 <= i < |keys[1..]| ==> keys[1..][i] == keys[i + 1];
      NothingMissing(envp, keys[1..], env);
    }
  }

  /** Merging a second time adds nothing. */
  lemma MergeOnce(envp: seq<string>, keys: seq<string>, env: Getenv)
    requires forall i :: 0 <= i < |keys| ==> PlainName(keys[i])
    ensures Additions(Merged(envp, keys, env), keys, env) == []
  {
    hide HasKey, PlainName, Merged, Additions;
    var m := Merged(envp, keys, env);
    forall i | 0 <= i < |keys| ensures !Missing(m, keys[i], env) {
      MergedDefines(envp, keys, env, keys[i]);
    }
    NothingMissing(m, keys, env);
  }

  /** With distinct keys each missing one is added exactly once, with its current value. */
  lemma {:induction false} AddedOnce(envp: seq<string>, keys: seq<string>, env: Getenv, key: string)
    requires forall i, j :: 0 <= i < j < |keys| ==> keys[i] != keys[j]
    requires PlainName(key) && forall i :: 0 <= i < |keys| ==> PlainName(keys[i])
    ensures Definitions(Additions(envp, keys, env), key)
            == if key in keys && Missing(envp, key, env) then [key + "=" + env(key)] else []
  {
    hide Missing, Defines, PlainName;
    if keys != [] {
      var rest := Additions(envp, keys[1..], env);
      AddedOnce(envp, keys[1..], env, key);
      assert keys == [keys[0]] + keys[1..];
      EntryDefines(keys[0], env, key);
      if Missing(envp, keys[0], env) {
        assert ([Entry(keys[0], env)] + rest)[1..] == rest;
      } else {
        assert [] + rest == rest;
      }
    }
  }

  lemma EntryDefines(k: string, env: Getenv, key: string)
    requires PlainName(key) && PlainName(k)
    ensures Defines(Entry(k, env), key) <==> k == key
  {
    DefinesOne(key, k, env(k));
  }

  /** The entries that define `key`. */
  function Definitions(envp: seq<string>, key: string): seq<string> {
    if envp == [] then [] else (if Defines(envp[0], key) then [envp[0]] else []) + Definitions(envp[1..], key)
  }

  lemma {:induction false} DefinitionsConcat(a: seq<string>, b: seq<string>, key: string)
    ensures Definitions(a + b, key) == Definitions(a, key) + Definitions(b, key)
  {
    hide Defines;
    if a == [] {
      assert a + b == b;
    } else {
      assert (a + b)[1..] == a[1..] + b;
      DefinitionsConcat(a[1..], b, key);
    }
  }

  // ------------------------ The kept names ------------------------

  const KEEP_LENGTHS: seq<nat> := [15, 17, 18, 19, 13, 25, 22, 10, 17, 27, 27, 24, 20, 21, 18, 17, 10]

  lemma KeptLengths()
    ensures |KEEP_KEYS| == |KEEP_LENGTHS| && forall i :: 0 <= i < |KEEP_KEYS| ==> |KEEP_KEYS[i]| == KEEP_LENGTHS[i]
  {
  }

  lemma KeptNamesAreDistinct()
    ensures forall i, j :: 0 <= i < j < |KEEP_KEYS| ==> KEEP_KEYS[i] != KEEP_KEYS[j]
  {
    KeptLengths();
    assert KEEP_KEYS[1][0] == 'P' && KEEP_KEYS[8][0] == 'O' && KEEP_KEYS[15][0] == 'J';
    assert KEEP_KEYS[2][0] == 'P' && KEEP_KEYS[14][0] == 'O' && KEEP_KEYS[7][0] == 'L' && KEEP_KEYS[16][0] == 'P';
    assert KEEP_KEYS[9][19] == 'E' && KEEP_KEYS[10][19] == 'P';
    forall i, j | 0 <= i < j < |KEEP_KEYS| ensures KEEP_KEYS[i] != KEEP_KEYS[j] {
      assert KEEP_LENGTHS[i] != KEEP_LENGTHS[j] || (i, j) in {(1, 8), (1, 15), (8, 15), (9, 10), (2, 14), (7, 16)};
    }
  }

  lemma KeptNamesArePlain()
    ensures forall i :: 0 <= i < |KEEP_KEYS| ==> PlainName(KEEP_KEYS[i])
  {
    hide PlainName;
    ProcwatchNamesArePlain();
    OtelNamesArePlain();
  }

  lemma ProcwatchNamesArePlain()
    ensures PlainName("PROCWATCH_LABEL") && PlainName("PROCWATCH_SERVICE") && PlainName("PROCWATCH_ENDPOINT")
    ensures PlainName("PROCWATCH_AGENT_DIR") && PlainName("PROCWATCH_POD") && PlainName("PROCWATCH_METRIC_INTERVAL")
    ensures PlainName("PROCWATCH_INJECT_DEBUG") && PlainName("LD_PRELOAD")
  {
  }

  lemma OtelNamesArePlain()
    ensures PlainName("OTEL_SERVICE_NAME") && PlainName("OTEL_EXPORTER_OTLP_ENDPOINT")
            && PlainName("OTEL_EXPORTER_OTLP_PROTOCOL")
    ensures PlainName("OTEL_RESOURCE_ATTRIBUTES") && PlainName("OTEL_TRACES_EXPORTER")
            && PlainName("OTEL_METRICS_EXPORTER")
    ensures PlainName("OTEL_LOGS_EXPORTER") && PlainName("JAVA_TOOL_OPTIONS") && PlainName("PYTHONPATH")
  {
  }

  /** The merge of the kept names: each is defined afterwards if it was or has a value, a missing
      one gets exactly one entry with its value, the others keep theirs, and merging again adds
      nothing. */
  lemma KeptNamesMerge(envp: seq<string>, env: Getenv, key: string)
    requires PlainName(key)
    ensures var m := Merged(envp, KEEP_KEYS, env);
            && (HasKey(m, key) <==> HasKey(envp, key) || (key in KEEP_KEYS && env(key) != ""))
            && Definitions(m, key) == Definitions(envp, key)
                 + (if key in KEEP_KEYS && Missing(envp, key, env) then [key + "=" + env(key)] else [])
            && Additions(m, KEEP_KEYS, env) == []
  {
    hide HasKey, PlainName, Missing, Additions, Definitions, KEEP_KEYS;
    KeptNamesArePlain();
    KeptNamesAreDistinct();
    MergedDefines(envp, KEEP_KEYS, env, key);
    AddedOnce(envp, KEEP_KEYS, env, key);
    DefinitionsConcat(envp, Additions(envp, KEEP_KEYS, env), key);
    MergeOnce(envp, KEEP_KEYS, env);
  }

  // ------------------------ Looking up ------------------------

  /** getenv in an environment: what follows the equals sign of the first entry for the key. */
  function Lookup(envp: seq<string>, key: string): Option<string> {
    if envp == [] then None
    else if |envp[0]| > |key| && envp[0][..|key|] == key && envp[0][|key|] == '=' then Some(envp[0][|key| + 1..])
    else Lookup(envp[1..], key)
  }

  lemma DefinesShape(entry: string, key: string)
    ensures Defines(entry, key) <==> |entry| > |key| && entry[..|key|] == key && entry[|key|] == '='
  {
    var k := key + "=";
    if k <= entry {
      assert entry[..|key|] == entry[..|k|][..|key|] == key && entry[|key|] == entry[..|k|][|key|];
    }
  }

  lemma {:induction false} LookupIsFirst(envp: seq<string>, key: string)
    ensures forall i :: 0 <= i < |Definitions(envp, key)| ==> |Definitions(envp, key)[i]| > |key|
    ensures Lookup(envp, key)
            == if Definitions(envp, key) == [] then None else Some(Definitions(envp, key)[0][|key| + 1..])
    ensures HasKey(envp, key) <==> Definitions(envp, key) != []
  {
    hide Defines;
    if envp != [] {
      DefinesShape(envp[0], key);
      LookupIsFirst(envp[1..], key);
      if HasKey(envp[1..], key) {
        var i :| 0 <= i < |envp[1..]| && Defines(envp[1..][i], key);
        assert Defines(envp[i + 1], key);
      }
      if HasKey(envp, key) && !Defines(envp[0], key) {
        var i :| 0 <= i < |envp| && Defines(envp[i], key);
        assert Defines(envp[1..][i - 1], key);
      }
    }
  }

  /** The started program finds the caller's value of a variable if there is one, else the kept one. */
  lemma KeptNamesAreFound(envp: seq<string>, env: Getenv, key: string)
    requires PlainName(key)
    ensures Lookup(Merged(envp, KEEP_KEYS, env), key)
            == if Lookup(envp, key).Some? then Lookup(envp, key)
               else if key in KEEP_KEYS && env(key) != "" then Some(env(key))
               else None
  {
    hide PlainName, KEEP_KEYS, Definitions, Lookup, HasKey, Merged;
    KeptNamesMerge(envp, env, key);
    LookupIsFirst(envp, key);
    LookupIsFirst(Merged(envp, KEEP_KEYS, env), key);
    var added := key + "=" + env(key);
    assert added[|key| + 1..] == env(key);
  }
}
