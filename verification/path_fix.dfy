/** The request-body path helpers: the absolute-path classifier, the early
    checks on the `db_storage_path` field of a JSON request body, and the
    repair that doubles a lone backslash inside a quoted JSON string. */
module PathFix {
  import opened Wrappers
  import opened Text
  import opened Json

  // ---------------------------------------------------------------------
  // Absolute paths

  /** A drive prefix `X:/` or `X:\` (any ASCII letter), or a leading `/`. */
  predicate IsAbsolutePath(path: string) {
    if path == "" then false
    else if |path| >= 3 && IsAsciiLetter(path[0]) && path[1] == ':' && (path[2] == '/' || path[2] == '\\') then true
    else path[0] == '/'
  }

  lemma AbsoluteExamples()
    ensures !IsAbsolutePath("")
    ensures IsAbsolutePath("D:\\wechatMSG\\db_storage") && IsAbsolutePath("c:/data")
    ensures IsAbsolutePath("/home/me/db_storage")
    ensures !IsAbsolutePath("C:") && !IsAbsolutePath("C:x") && !IsAbsolutePath("dir\\x")
    ensures !IsAbsolutePath(" /home") && !IsAbsolutePath("1:/x")
  {
  }

  /** Only the first three characters decide: anything appended to an
      absolute path keeps it absolute. */
  lemma AbsoluteExtends(path: string, rest: string)
    requires IsAbsolutePath(path)
    ensures IsAbsolutePath(path + rest)
  {
    assert (path + rest)[0] == path[0];
    if |path| >= 3 {
      assert (path + rest)[1] == path[1] && (path + rest)[2] == path[2];
    }
  }

  // ---------------------------------------------------------------------
  // Early validation of the request body

  const StoragePathKey: string := "db_storage_path"

  const MissingKeyMessage: string := "缺少必需的db_storage_path参数，请提供具体的数据库存储路径。"
  const BlankMessage: string := "db_storage_path参数不能为空，请提供具体的数据库存储路径。"
  const RelativeHead: string := "请提供绝对路径，当前输入的是相对路径: "
  const RelativeTail: string := "。\nWindows绝对路径示例: D:\\wechatMSG\\xwechat_files\\wxid_xxx\\db_storage"

  /** The relative-path message quotes the offending path. */
  function RelativeMessage(path: string): (m: string)
    ensures Contains(m, path)
    ensures StartsWith(m, RelativeHead)
  {
    var m := RelativeHead + path + RelativeTail;
    assert m[|RelativeHead|..][..|path|] == path;
    assert m[..|RelativeHead|] == RelativeHead;
    m
  }

  /** The three messages tell their causes apart. */
  lemma MessagesDistinct(path: string)
    ensures MissingKeyMessage != BlankMessage
    ensures RelativeMessage(path) != MissingKeyMessage && RelativeMessage(path) != BlankMessage
  {
    assert MissingKeyMessage[0] != BlankMessage[0];
    var m := RelativeMessage(path);
    assert m[0] == RelativeHead[0];
  }

  /** The outcome of the checks that need no filesystem. */
  datatype EarlyVerdict =
    | Reject(message: string)
    | Probe(path: string)
    | NoStrip           // a truthy non-string value: `.strip()` raises

  /** The early checks in order: the key, then a blank value, then a
      relative path; only a non-blank absolute string path reaches the
      filesystem probe. */
  function EarlyCheck(body: map<string, Value>): (r: EarlyVerdict)
    ensures StoragePathKey !in body ==> r == Reject(MissingKeyMessage)
    ensures r.Probe? <==> StoragePathKey in body && body[StoragePathKey].Str?
                          && Strip(body[StoragePathKey].s) != "" && IsAbsolutePath(body[StoragePathKey].s)
    ensures r.Probe? ==> r.path == body[StoragePathKey].s
    ensures r == Reject(BlankMessage) <==>
      StoragePathKey in body &&
      (!Truthy(body[StoragePathKey]) || (body[StoragePathKey].Str? && Strip(body[StoragePathKey].s) == ""))
    ensures r.NoStrip? <==> StoragePathKey in body && Truthy(body[StoragePathKey]) && !body[StoragePathKey].Str?
    ensures (StoragePathKey in body && body[StoragePathKey].Str? && Strip(body[StoragePathKey].s) != ""
             && !IsAbsolutePath(body[StoragePathKey].s)) ==> r == Reject(RelativeMessage(body[StoragePathKey].s))
  {
    if StoragePathKey !in body then Reject(MissingKeyMessage)
    else
      var v := body[StoragePathKey];
      MessagesDistinct(if v.Str? then v.s else "");
      if !Truthy(v) then Reject(BlankMessage)
      else if !v.Str? then NoStrip
      else if Strip(v.s) == "" then Reject(BlankMessage)
      else if !IsAbsolutePath(v.s) then Reject(RelativeMessage(v.s))
      else Probe(v.s)
  }

  /** The whole validation: `None` when the body passes, the message
      otherwise; `probe` stands for the filesystem checks, which see only
      a non-blank absolute path. */
  function ValidatePaths(body: map<string, Value>, probe: string -> Option<string>): (r: Result<Option<string>, string>)
    ensures r.Err? <==> EarlyCheck(body).NoStrip?
    ensures r == Ok(None) <==>
      && StoragePathKey in body && body[StoragePathKey].Str?
      && Strip(body[StoragePathKey].s) != "" && IsAbsolutePath(body[StoragePathKey].s)
      && probe(body[StoragePathKey].s) == None
  {
    match EarlyCheck(body)
    case Reject(m) => Ok(Some(m))
    case NoStrip => Err("AttributeError: object has no attribute 'strip'")
    case Probe(p) => Ok(probe(p))
  }

  /** The early checks never consult the probe: any two probes agree on a
      body they reject. */
  lemma RejectedBeforeProbe(body: map<string, Value>, probe1: string -> Option<string>, probe2: string -> Option<string>)
    requires !EarlyCheck(body).Probe?
    ensures ValidatePaths(body, probe1) == ValidatePaths(body, probe2)
  {
  }

  lemma MissingKeyExample(probe: string -> Option<string>)
    ensures ValidatePaths(map[], probe) == Ok(Some(MissingKeyMessage))
  {
  }

  /** A falsy value, or a string that strips to nothing, gets the blank
      message. */
  lemma BlankIsReported(v: Value, probe: string -> Option<string>)
    requires !Truthy(v) || (v.Str? && Strip(v.s) == "")
    ensures ValidatePaths(map[StoragePathKey := v], probe) == Ok(Some(BlankMessage))
  {
    var body := map[StoragePathKey := v];
    assert body[StoragePathKey] == v;
  }

  /** A non-blank string path that fails the absolute test gets the
      relative-path message. */
  lemma RelativeIsReported(path: string, probe: string -> Option<string>)
    requires Strip(path) != "" && !IsAbsolutePath(path)
    ensures ValidatePaths(map[StoragePathKey := Str(path)], probe) == Ok(Some(RelativeMessage(path)))
  {
    var body := map[StoragePathKey := Str(path)];
    assert body[StoragePathKey] == Str(path);
    assert ValidatePaths(body, probe) == Ok(Some(EarlyCheck(body).message));
  }

  /** A non-blank absolute path is handed to the probe, whose verdict is
      the result. */
  lemma AbsolutePathIsProbed(path: string, probe: string -> Option<string>)
    requires Strip(path) != "" && IsAbsolutePath(path)
    ensures ValidatePaths(map[StoragePathKey := Str(path)], probe) == Ok(probe(path))
  {
    var body := map[StoragePathKey := Str(path)];
    var r := EarlyCheck(body);
    assert r == Probe(path);
  }

  /** The absolute test sees the unstripped value: an absolute path with
      a leading space is not blank, yet it is reported as relative. */
  lemma PaddedAbsoluteIsRelative(path: string, probe: string -> Option<string>)
    requires IsAbsolutePath(path)
    ensures ValidatePaths(map[StoragePathKey := Str(" " + path)], probe) == Ok(Some(RelativeMessage(" " + path)))
  {
    PaddedIsNotBlank(path);
    RelativeIsReported(" " + path, probe);
  }

  /** An absolute path behind one space is neither blank nor absolute. */
  lemma PaddedIsNotBlank(path: string)
    requires IsAbsolutePath(path)
    ensures Strip(" " + path) != "" && !IsAbsolutePath(" " + path)
  {
    var v := " " + path;
    assert v[0] == ' ' && v[1] == path[0];
    assert !IsSpace(path[0]);
    StripNonBlank(v, 1);
  }

  lemma NonStringExample(probe: string -> Option<string>)
    ensures ValidatePaths(map[StoragePathKey := Num(5)], probe).Err?
  {
  }

  // ---------------------------------------------------------------------
  // The backslash repair

  /** Whether the head of `s` is a lone backslash, `prevBackslash` telling
      whether the character before it (in the original) is a backslash. */
  predicate LoneHead(s: string, prevBackslash: bool) {
    |s| > 0 && s[0] == '\\' && !prevBackslash && (|s| == 1 || s[1] != '\\')
  }

  /** Every lone backslash becomes two; runs of two or more and every
      other character are copied.  Both neighbours are read in the
      original string, as a look-behind and a look-ahead do. */
  function FixFrom(s: string, prevBackslash: bool): (r: string)
    ensures |r| >= |s|
    ensures |s| > 0 ==> |r| > 0 && r[0] == s[0]
    decreases |s|
  {
    if |s| == 0 then ""
    else (if LoneHead(s, prevBackslash) then "\\\\" else [s[0]]) + FixFrom(s[1..], s[0] == '\\')
  }

  /** The repair of one quoted JSON string body. */
  function FixBackslashes(path: string): string {
    FixFrom(path, false)
  }

  /** `s` has no lone backslash, given what precedes it. */
  predicate NoLone(s: string, prevBackslash: bool)
    decreases |s|
  {
    |s| == 0 || (!LoneHead(s, prevBackslash) && NoLone(s[1..], s[0] == '\\'))
  }

  /** Index form of a lone backslash: neither neighbour is a backslash. */
  predicate LoneAt(s: string, i: int)
    requires 0 <= i < |s|
  {
    s[i] == '\\' && (i == 0 || s[i - 1] != '\\') && (i + 1 == |s| || s[i + 1] != '\\')
  }

  /** The scanning definition agrees with the index one: no lone head from
      position `i` on exactly when no index from `i` on is lone. */
  lemma {:induction false} NoLoneFrom(s: string, i: int)
    requires 0 <= i <= |s|
    ensures NoLone(s[i..], i > 0 && s[i - 1] == '\\') <==> forall j :: i <= j < |s| ==> !LoneAt(s, j)
    decreases |s| - i
  {
    if i < |s| {
      NoLoneFrom(s, i + 1);
      var t := s[i..];
      assert t[1..] == s[i + 1..];
      assert LoneHead(t, i > 0 && s[i - 1] == '\\') <==> LoneAt(s, i);
    }
  }

  /** A string without lone backslashes is left as it is. */
  lemma {:induction false} FixFromNoLone(s: string, prevBackslash: bool)
    requires NoLone(s, prevBackslash)
    ensures FixFrom(s, prevBackslash) == s
    decreases |s|
  {
    if |s| > 0 {
      FixFromNoLone(s[1..], s[0] == '\\');
      assert s == [s[0]] + s[1..];
    }
  }

  /** The repair leaves no lone backslash behind. */
  lemma {:induction false} FixFromLeavesNoLone(s: string, prevBackslash: bool)
    ensures NoLone(FixFrom(s, prevBackslash), prevBackslash)
    decreases |s|
  {
    if |s| > 0 {
      var rest := FixFrom(s[1..], s[0] == '\\');
      FixFromLeavesNoLone(s[1..], s[0] == '\\');
      var r := FixFrom(s, prevBackslash);
      if LoneHead(s, prevBackslash) {
        assert r == "\\\\" + rest;
        assert r[1..] == "\\" + rest && r[1..][1..] == rest;
      } else {
        assert r == [s[0]] + rest && r[1..] == rest;
      }
    }
  }

  /** The number of lone backslashes the scan meets. */
  function LoneCount(s: string, prevBackslash: bool): nat
    decreases |s|
  {
    if |s| == 0 then 0
    else (if LoneHead(s, prevBackslash) then 1 else 0) + LoneCount(s[1..], s[0] == '\\')
  }

  /** The repair grows the string by one character per lone backslash, so
      it changes the string exactly when one is present. */
  lemma {:induction false} FixFromLength(s: string, prevBackslash: bool)
    ensures |FixFrom(s, prevBackslash)| == |s| + LoneCount(s, prevBackslash)
    ensures LoneCount(s, prevBackslash) == 0 <==> NoLone(s, prevBackslash)
    decreases |s|
  {
    if |s| > 0 {
      FixFromLength(s[1..], s[0] == '\\');
    }
  }

  /** `s` with every backslash removed. */
  function Unslashed(s: string): string
    decreases |s|
  {
    if |s| == 0 then "" else (if s[0] == '\\' then "" else [s[0]]) + Unslashed(s[1..])
  }

  lemma {:induction false} UnslashedAppend(a: string, b: string)
    ensures Unslashed(a + b) == Unslashed(a) + Unslashed(b)
    decreases |a|
  {
    if |a| > 0 {
      assert (a + b)[0] == a[0] && (a + b)[1..] == a[1..] + b;
      UnslashedAppend(a[1..], b);
    } else {
      assert a + b == b;
    }
  }

  /** The repair only inserts backslashes: with the backslashes taken out,
      the repaired string is the original one. */
  lemma {:induction false} FixFromKeepsOthers(s: string, prevBackslash: bool)
    ensures Unslashed(FixFrom(s, prevBackslash)) == Unslashed(s)
    decreases |s|
  {
    if |s| > 0 {
      var t := FixFrom(s[1..], s[0] == '\\');
      FixFromKeepsOthers(s[1..], s[0] == '\\');
      var head := if LoneHead(s, prevBackslash) then "\\\\" else [s[0]];
      assert FixFrom(s, prevBackslash) == head + t;
      UnslashedAppend(head, t);
    }
  }

  /** The repair is idempotent. */
  lemma FixBackslashesIdempotent(path: string)
    ensures FixBackslashes(FixBackslashes(path)) == FixBackslashes(path)
  {
    FixFromLeavesNoLone(path, false);
    FixFromNoLone(FixBackslashes(path), false);
  }

  /** The repair changes a path exactly when some backslash in it has no
      backslash on either side. */
  lemma FixBackslashesChanges(path: string)
    ensures FixBackslashes(path) == path <==> forall j :: 0 <= j < |path| ==> !LoneAt(path, j)
  {
    FixFromLength(path, false);
    NoLoneFrom(path, 0);
    assert path[0..] == path;
    if NoLone(path, false) {
      FixFromNoLone(path, false);
    }
  }

  /** The repair never changes whether a path counts as absolute: the drive
      letter, the colon and the slash after it are copied as they are. */
  lemma FixKeepsAbsolute(path: string)
    ensures IsAbsolutePath(FixBackslashes(path)) <==> IsAbsolutePath(path)
  {
    var r := FixBackslashes(path);
    if |path| > 0 && path[0] != '\\' {
      var r1 := FixFrom(path[1..], false);
      assert r == [path[0]] + r1;
      if |path| > 1 && path[1] == ':' {
        var r2 := FixFrom(path[2..], false);
        assert path[1..][1..] == path[2..];
        assert r1 == [':'] + r2;
        assert r[2..] == r2;
        assert |r| >= 3 <==> |path| >= 3;
      } else if |path| > 1 {
        assert r[1] == path[1];
      }
    }
  }

  lemma FixExamples()
    ensures FixBackslashes("a\\b") == "a\\\\b"
    ensures FixBackslashes("\\") == "\\\\"
  {
  }

  lemma KeptRunExample()
    ensures FixBackslashes("a\\\\b") == "a\\\\b"
  {
  }
}
