/**
 * ConfigManager: the persisted spoof configuration, a text file of
 * `key=value` lines with the keys `version_code` and `version_name`.
 * The file is given to the model as its lines (`None` when it is missing
 * or cannot be read); the outcomes of the privileged shell command and of
 * the direct write are given as inputs.
 */
module ConfigManager {
  import opened Wrappers
  import opened Text

  const VERSION_CODE_KEY: string := "version_code"
  const VERSION_NAME_KEY: string := "version_name"

  /** Both spoofed fields, as text; a record exists only with both of them. */
  datatype SpoofConfig = SpoofConfig(versionCode: string, versionName: string)

  // ---------------------------------------------------------------------
  // One line: `line.split("=", limit = 2)`, then both parts trimmed
  // ---------------------------------------------------------------------

  /** The trimmed key and value of a line, or `None` when it has no '='. */
  function KeyValue(line: string): Option<(string, string)> {
    match SplitAtFirst(line, '=')
    case None => None
    case Some((k, v)) => Some((Trim(k), Trim(v)))
  }

  /** A parsed line: its trimmed key and value, or `None`. */
  type Entry = Option<(string, string)>

  /** The parsed line assigns `key`. */
  predicate Assigns(e: Entry, key: string) {
    e.Some? && e.value.0 == key
  }

  /** The line assigns `key`. */
  predicate SetsKey(line: string, key: string) {
    Assigns(KeyValue(line), key)
  }

  /** The parsed lines. */
  function Entries(lines: seq<string>): (es: seq<Entry>)
    ensures |es| == |lines|
    ensures forall i :: 0 <= i < |lines| ==> es[i] == KeyValue(lines[i])
  {
    seq(|lines|, i requires 0 <= i < |lines| => KeyValue(lines[i]))
  }

  /** A line is split at its first '=' only: the value keeps any further '='. */
  lemma KeyValueOf(k: string, v: string)
    requires '=' !in k
    ensures KeyValue(k + "=" + v) == Some((Trim(k), Trim(v)))
  {
    SplitAtFirstOf(k, '=', v);
  }

  /** A line without '=' assigns nothing. */
  lemma NoSeparatorNoKey(line: string, key: string)
    requires '=' !in line
    ensures !SetsKey(line, key)
  {
  }

  // ---------------------------------------------------------------------
  // All lines: the last assignment of a key wins
  // ---------------------------------------------------------------------

  /** The value of the last parsed line that assigns `key`. */
  function LastAssigned(entries: seq<Entry>, key: string): Option<string> {
    if |entries| == 0 then None
    else if Assigns(entries[|entries| - 1], key) then Some(entries[|entries| - 1].value.1)
    else LastAssigned(entries[..|entries| - 1], key)
  }

  /** The trimmed value of the last line of `lines` that assigns `key`. */
  function LastValue(lines: seq<string>, key: string): Option<string> {
    LastAssigned(Entries(lines), key)
  }

  lemma {:induction false} LastAssignedNone(entries: seq<Entry>, key: string)
    ensures LastAssigned(entries, key).None? <==> forall i :: 0 <= i < |entries| ==> !Assigns(entries[i], key)
  {
    if |entries| > 0 {
      var n := |entries| - 1;
      var front := entries[..n];
      LastAssignedNone(front, key);
      if !Assigns(entries[n], key) {
        assert forall i :: 0 <= i < n ==> front[i] == entries[i];
      }
    }
  }

  lemma {:induction false} LastAssignedAt(entries: seq<Entry>, key: string, i: nat)
    requires i < |entries| && Assigns(entries[i], key)
    requires forall j :: i < j < |entries| ==> !Assigns(entries[j], key)
    ensures LastAssigned(entries, key) == Some(entries[i].value.1)
  {
    var n := |entries| - 1;
    if i < n {
      var front := entries[..n];
      assert front[i] == entries[i];
      assert forall j :: i < j < n ==> front[j] == entries[j];
      LastAssignedAt(front, key, i);
    }
  }

  lemma {:induction false} LastAssignedIgnores(before: seq<Entry>, e: Entry, after: seq<Entry>, key: string)
    requires !Assigns(e, key)
    ensures LastAssigned(before + [e] + after, key) == LastAssigned(before + after, key)
  {
    if after == [] {
      assert (before + [e] + after)[..|before|] == before;
      assert before + after == before;
    } else {
      var n := |after| - 1;
      assert (before + [e] + after)[..|before| + n + 1] == before + [e] + after[..n];
      assert (before + after)[..|before| + n] == before + after[..n];
      LastAssignedIgnores(before, e, after[..n], key);
    }
  }

  /** Taking one more parsed line: it decides the value when it assigns the key. */
  lemma LastAssignedStep(entries: seq<Entry>, i: nat, key: string)
    requires i < |entries|
    ensures LastAssigned(entries[..i + 1], key)
      == if Assigns(entries[i], key) then Some(entries[i].value.1) else LastAssigned(entries[..i], key)
  {
    assert entries[..i + 1][..i] == entries[..i];
  }

  /** No value is found exactly when no line assigns the key. */
  lemma LastValueNone(lines: seq<string>, key: string)
    ensures LastValue(lines, key).None? <==> forall i :: 0 <= i < |lines| ==> !SetsKey(lines[i], key)
  {
    LastAssignedNone(Entries(lines), key);
  }

  /** The value found is that of the last line that assigns the key. */
  lemma LastValueAt(lines: seq<string>, key: string, i: nat)
    requires i < |lines| && SetsKey(lines[i], key)
    requires forall j :: i < j < |lines| ==> !SetsKey(lines[j], key)
    ensures LastValue(lines, key) == Some(KeyValue(lines[i]).value.1)
  {
    LastAssignedAt(Entries(lines), key, i);
  }

  lemma EntriesAppend(a: seq<string>, b: seq<string>)
    ensures Entries(a + b) == Entries(a) + Entries(b)
  {
    var l, r := Entries(a + b), Entries(a) + Entries(b);
    assert |l| == |r|;
    forall i | 0 <= i < |l| ensures l[i] == r[i] {
      if i < |a| {
        assert (a + b)[i] == a[i];
      } else {
        assert (a + b)[i] == b[i - |a|];
      }
    }
  }

  /** A line that does not assign `key` may be inserted anywhere without changing its value. */
  lemma LastValueIgnores(before: seq<string>, line: string, after: seq<string>, key: string)
    requires !SetsKey(line, key)
    ensures LastValue(before + [line] + after, key) == LastValue(before + after, key)
  {
    EntriesAppend(before + [line], after);
    EntriesAppend(before, [line]);
    assert Entries([line]) == [KeyValue(line)];
    EntriesAppend(before, after);
    LastAssignedIgnores(Entries(before), KeyValue(line), Entries(after), key);
  }

  // ---------------------------------------------------------------------
  // readConfig
  // ---------------------------------------------------------------------

  /** The configuration the lines of a file describe: present iff both keys are assigned. */
  function ParseLines(lines: seq<string>): Option<SpoofConfig> {
    match (LastValue(lines, VERSION_CODE_KEY), LastValue(lines, VERSION_NAME_KEY))
    case (Some(code), Some(name)) => Some(SpoofConfig(code, name))
    case _ => None
  }

  /**
   * `readConfig`: a missing or unreadable file (or an exception while
   * reading it) gives no configuration; otherwise each line that assigns a
   * recognised key overwrites the value read so far.
   */
  method ReadConfig(file: Option<seq<string>>) returns (r: Option<SpoofConfig>)
    ensures file.None? ==> r.None?
    ensures file.Some? ==> r == ParseLines(file.value)
  {
    if file.None? {
      return None;
    }
    var lines := file.value;
    ghost var entries := Entries(lines);
    var versionCode: Option<string> := None;
    var versionName: Option<string> := None;
    for i := 0 to |lines|
      invariant versionCode == LastAssigned(entries[..i], VERSION_CODE_KEY)
      invariant versionName == LastAssigned(entries[..i], VERSION_NAME_KEY)
    {
      assert entries[..i + 1][..i] == entries[..i];
      match KeyValue(lines[i])
      case Some((key, value)) =>
        if key == VERSION_CODE_KEY {
          versionCode := Some(value);
        } else if key == VERSION_NAME_KEY {
          versionName := Some(value);
        }
      case None =>
    }
    assert entries[..|lines|] == entries;
    if versionCode.Some? && versionName.Some? {
      r := Some(SpoofConfig(versionCode.value, versionName.value));
    } else {
      r := None;
    }
  }

  /** A configuration is read iff both keys are assigned by some line. */
  lemma ParsePresentIff(lines: seq<string>)
    ensures ParseLines(lines).Some? <==>
      (exists i :: 0 <= i < |lines| && SetsKey(lines[i], VERSION_CODE_KEY))
      && (exists i :: 0 <= i < |lines| && SetsKey(lines[i], VERSION_NAME_KEY))
  {
    LastValueNone(lines, VERSION_CODE_KEY);
    LastValueNone(lines, VERSION_NAME_KEY);
  }

  /** Lines without '=' and lines with any other key do not change what is read. */
  lemma ParseIgnores(before: seq<string>, line: string, after: seq<string>)
    requires !SetsKey(line, VERSION_CODE_KEY) && !SetsKey(line, VERSION_NAME_KEY)
    ensures ParseLines(before + [line] + after) == ParseLines(before + after)
  {
    LastValueIgnores(before, line, after, VERSION_CODE_KEY);
    LastValueIgnores(before, line, after, VERSION_NAME_KEY);
  }

  /** Values are kept as text: a non-numeric code and an empty name are read as they are. */
  lemma ParseKeepsText()
    ensures ParseLines(["version_code = abc ", "version_name="]) == Some(SpoofConfig("abc", ""))
  {
    KeepsTextCode();
    KeepsTextName();
    ParseTwoLines("version_code = abc ", "version_name=", "abc", "");
  }

  lemma KeepsTextCode()
    ensures KeyValue("version_code = abc ") == Some((VERSION_CODE_KEY, "abc"))
  {
    assert "version_code = abc " == "version_code " + "=" + " abc ";
    KeyValueOf("version_code ", " abc ");
    TrimmedCodeKey();
    TrimmedAbc();
  }

  lemma TrimmedCodeKey()
    ensures Trim("version_code ") == VERSION_CODE_KEY
  {
    assert "version_code " == [] + VERSION_CODE_KEY + " ";
    TrimPadded([], VERSION_CODE_KEY, " ");
  }

  lemma TrimmedAbc()
    ensures Trim(" abc ") == "abc"
  {
    assert " abc " == " " + "abc" + " ";
    TrimPadded(" ", "abc", " ");
  }

  lemma KeepsTextName()
    ensures KeyValue("version_name=") == Some((VERSION_NAME_KEY, ""))
  {
    NameLineText();
    KeyLine(VERSION_NAME_KEY, "");
    TrimClean("");
  }

  lemma NameLineText()
    ensures "version_name=" == VERSION_NAME_KEY + "=" + ""
  {
  }

  /** The two keys contain no '='. */
  lemma KeysWithoutSeparator()
    ensures '=' !in VERSION_CODE_KEY && '=' !in VERSION_NAME_KEY
  {
  }

  /** The two keys are their own trim. */
  lemma KeysTrimmed()
    ensures Trim(VERSION_CODE_KEY) == VERSION_CODE_KEY && Trim(VERSION_NAME_KEY) == VERSION_NAME_KEY
  {
    TrimClean(VERSION_CODE_KEY);
    TrimClean(VERSION_NAME_KEY);
  }

  /** A code line followed by a name line is read as that code and that name. */
  lemma ParseTwoLines(l0: string, l1: string, code: string, name: string)
    requires KeyValue(l0) == Some((VERSION_CODE_KEY, code))
    requires KeyValue(l1) == Some((VERSION_NAME_KEY, name))
    ensures ParseLines([l0, l1]) == Some(SpoofConfig(code, name))
  {
    CodeBeforeName(l0, l1, code);
    LastValueAt([l0, l1], VERSION_NAME_KEY, 1);
  }

  lemma CodeBeforeName(l0: string, l1: string, code: string)
    requires KeyValue(l0) == Some((VERSION_CODE_KEY, code))
    requires KeyValue(l1).Some? && KeyValue(l1).value.0 == VERSION_NAME_KEY
    ensures LastValue([l0, l1], VERSION_CODE_KEY) == Some(code)
  {
    KeysDiffer();
    LastValueAt([l0, l1], VERSION_CODE_KEY, 0);
  }

  lemma KeysDiffer()
    ensures VERSION_CODE_KEY != VERSION_NAME_KEY
  {
    assert VERSION_CODE_KEY[8] != VERSION_NAME_KEY[8];
  }

  /** A line `key=value` for a recognised key assigns that key the trimmed value. */
  lemma KeyLine(key: string, value: string)
    requires key == VERSION_CODE_KEY || key == VERSION_NAME_KEY
    ensures KeyValue(key + "=" + value) == Some((key, Trim(value)))
  {
    KeysWithoutSeparator();
    KeyValueOf(key, value);
    KeysTrimmed();
  }

  // ---------------------------------------------------------------------
  // writeConfig
  // ---------------------------------------------------------------------

  /** The text `writeConfig` stores for a code and a name. */
  function Content(versionCode: string, versionName: string): string {
    VERSION_CODE_KEY + "=" + versionCode + "\n" + VERSION_NAME_KEY + "=" + versionName
  }

  /** What became of the privileged `su -c "echo … > file && chmod 644 file"` command. */
  datatype PrivilegedOutcome =
    | Exited(exitCode: int)  // the command ran and exited with this code
    | ExecFailed             // starting the command threw

  /**
   * The result of `writeConfig`, with the file text a successful path leaves
   * behind when the model knows it.
   */
  datatype WriteOutcome = WriteOutcome(success: bool, fallbackTried: bool, written: Option<string>)

  /**
   * Text that `echo '…'` passes through unchanged: inside single quotes the
   * shell interprets nothing until the next single quote, and without a
   * backslash no `echo` variant rewrites an escape such as `\n` or `\c`.
   */
  predicate EchoVerbatim(s: string) {
    '\'' !in s && '\\' !in s
  }

  /**
   * `writeConfig`: the privileged command first; only when it ran and exited
   * with a non-zero code is the direct write tried. A failure to start the
   * command ends the write without the fallback. The privileged path writes
   * the content followed by `echo`'s newline when the content holds no single
   * quote and no backslash; otherwise the shell re-reads the rest of the
   * command or `echo` rewrites escapes, and the text written is unknown
   * (`None`). The direct path writes the content alone.
   */
  function WriteConfig(versionCode: string, versionName: string,
                       privileged: PrivilegedOutcome, directWriteSucceeds: bool): (w: WriteOutcome)
    ensures w.fallbackTried <==> privileged.Exited? && privileged.exitCode != 0
    ensures w.success <==> privileged == Exited(0) || (w.fallbackTried && directWriteSucceeds)
    ensures w.written.Some? ==> w.success
    ensures w.success && w.fallbackTried ==> w.written == Some(Content(versionCode, versionName))
    ensures w.success && !w.fallbackTried ==>
      (w.written.Some? <==> EchoVerbatim(Content(versionCode, versionName)))
    ensures w.written.Some? && !w.fallbackTried ==> w.written == Some(Content(versionCode, versionName) + "\n")
  {
    var content := Content(versionCode, versionName);
    match privileged
    case ExecFailed => WriteOutcome(false, false, None)
    case Exited(exitCode) =>
      if exitCode == 0 then WriteOutcome(true, false, if EchoVerbatim(content) then Some(content + "\n") else None)
      else if directWriteSucceeds then WriteOutcome(true, true, Some(content))
      else WriteOutcome(false, true, None)
  }

  /** `echo` passes the content through unchanged exactly when it would pass both values. */
  lemma ContentEchoVerbatim(versionCode: string, versionName: string)
    ensures EchoVerbatim(Content(versionCode, versionName)) <==> EchoVerbatim(versionCode) && EchoVerbatim(versionName)
  {
    assert EchoVerbatim(VERSION_CODE_KEY + "=") && EchoVerbatim(VERSION_NAME_KEY + "=");
    assert Content(versionCode, versionName)
      == (VERSION_CODE_KEY + "=") + versionCode + "\n" + (VERSION_NAME_KEY + "=") + versionName;
  }

  /** A name holding `'` or `\n` as typed leaves the shell path's text unknown. */
  lemma ShellTextUnknownExamples()
    ensures WriteConfig("1", "a'b'c", Exited(0), false) == WriteOutcome(true, false, None)
    ensures WriteConfig("1", "2.0\\nx=y", Exited(0), false) == WriteOutcome(true, false, None)
  {
    assert Content("1", "a'b'c")[29] == '\'';
    assert Content("1", "2.0\\nx=y")[31] == '\\';
  }

  /** A key line built from a value without a line terminator has none either. */
  lemma KeyLineSingle(key: string, value: string)
    requires key == VERSION_CODE_KEY || key == VERSION_NAME_KEY
    requires NoLineTerminator(value)
    ensures NoLineTerminator(key + "=" + value)
  {
    var l := key + "=" + value;
    forall i | 0 <= i < |l| ensures !IsLineTerminator(l[i]) {
      if i >= 13 { assert l[i] == value[i - 13]; }
    }
  }

  /** The lines of the written text, for values without a line terminator. */
  lemma ContentLines(versionCode: string, versionName: string)
    requires NoLineTerminator(versionCode) && NoLineTerminator(versionName)
    ensures Lines(Content(versionCode, versionName))
      == [VERSION_CODE_KEY + "=" + versionCode, VERSION_NAME_KEY + "=" + versionName]
    ensures Lines(Content(versionCode, versionName) + "\n")
      == [VERSION_CODE_KEY + "=" + versionCode, VERSION_NAME_KEY + "=" + versionName]
  {
    var l0 := VERSION_CODE_KEY + "=" + versionCode;
    var l1 := VERSION_NAME_KEY + "=" + versionName;
    KeyLineSingle(VERSION_CODE_KEY, versionCode);
    KeyLineSingle(VERSION_NAME_KEY, versionName);
    assert Content(versionCode, versionName) == l0 + ['\n'] + l1;
    LinesStep(l0, l1);
    SingleLine(l1);
    assert Content(versionCode, versionName) + "\n" == l0 + ['\n'] + (l1 + "\n");
    LinesStep(l0, l1 + "\n");
  }

  /** Reading back the text built from a code and a name gives both, trimmed. */
  lemma RoundTrip(versionCode: string, versionName: string)
    requires NoLineTerminator(versionCode) && NoLineTerminator(versionName)
    ensures ParseLines(Lines(Content(versionCode, versionName)))
      == Some(SpoofConfig(Trim(versionCode), Trim(versionName)))
    ensures ParseLines(Lines(Content(versionCode, versionName) + "\n"))
      == Some(SpoofConfig(Trim(versionCode), Trim(versionName)))
  {
    ContentLines(versionCode, versionName);
    KeyLine(VERSION_CODE_KEY, versionCode);
    KeyLine(VERSION_NAME_KEY, versionName);
    ParseTwoLines(VERSION_CODE_KEY + "=" + versionCode, VERSION_NAME_KEY + "=" + versionName,
                  Trim(versionCode), Trim(versionName));
  }

  /**
   * A line break in the name is written as a line of its own, which is read
   * like any other: here it assigns the code a second time, and that later
   * assignment wins.
   */
  lemma LineBreakInName(versionCode: string, name: string, laterCode: string)
    requires NoLineTerminator(versionCode) && NoLineTerminator(name) && NoLineTerminator(laterCode)
    ensures ParseLines(Lines(Content(versionCode, name + "\n" + VERSION_CODE_KEY + "=" + laterCode)))
      == Some(SpoofConfig(Trim(laterCode), Trim(name)))
  {
    ContentThreeLines(versionCode, name, laterCode);
    KeyLine(VERSION_CODE_KEY, versionCode);
    KeyLine(VERSION_NAME_KEY, name);
    KeyLine(VERSION_CODE_KEY, laterCode);
    ParseCodeTwice(VERSION_CODE_KEY + "=" + versionCode, VERSION_NAME_KEY + "=" + name,
                   VERSION_CODE_KEY + "=" + laterCode, Trim(laterCode), Trim(name));
  }

  lemma ContentThreeLines(versionCode: string, name: string, laterCode: string)
    requires NoLineTerminator(versionCode) && NoLineTerminator(name) && NoLineTerminator(laterCode)
    ensures Lines(Content(versionCode, name + "\n" + VERSION_CODE_KEY + "=" + laterCode))
      == [VERSION_CODE_KEY + "=" + versionCode, VERSION_NAME_KEY + "=" + name, VERSION_CODE_KEY + "=" + laterCode]
  {
    var l0 := VERSION_CODE_KEY + "=" + versionCode;
    var l1 := VERSION_NAME_KEY + "=" + name;
    var l2 := VERSION_CODE_KEY + "=" + laterCode;
    KeyLineSingle(VERSION_CODE_KEY, versionCode);
    KeyLineSingle(VERSION_NAME_KEY, name);
    KeyLineSingle(VERSION_CODE_KEY, laterCode);
    var m := name + "\n" + VERSION_CODE_KEY + "=" + laterCode;
    assert m == name + "\n" + l2;
    var rest := l1 + ['\n'] + l2;
    assert VERSION_NAME_KEY + "=" + m == rest;
    assert Content(versionCode, m) == l0 + ['\n'] + rest;
    LinesStep(l0, rest);
    LinesStep(l1, l2);
    SingleLine(l2);
    assert Lines(rest) == [l1, l2];
  }

  /** Whatever the first line, a name line and then a code line are read as that pair. */
  lemma ParseCodeTwice(l0: string, l1: string, l2: string, code: string, name: string)
    requires KeyValue(l1) == Some((VERSION_NAME_KEY, name))
    requires KeyValue(l2) == Some((VERSION_CODE_KEY, code))
    ensures ParseLines([l0, l1, l2]) == Some(SpoofConfig(code, name))
  {
    CodeLast(l0, l1, l2, code);
    NameBeforeCode(l0, l1, l2, name);
  }

  lemma CodeLast(l0: string, l1: string, l2: string, code: string)
    requires KeyValue(l2) == Some((VERSION_CODE_KEY, code))
    ensures LastValue([l0, l1, l2], VERSION_CODE_KEY) == Some(code)
  {
    LastValueAt([l0, l1, l2], VERSION_CODE_KEY, 2);
  }

  lemma NameBeforeCode(l0: string, l1: string, l2: string, name: string)
    requires KeyValue(l1) == Some((VERSION_NAME_KEY, name))
    requires KeyValue(l2).Some? && KeyValue(l2).value.0 == VERSION_CODE_KEY
    ensures LastValue([l0, l1, l2], VERSION_NAME_KEY) == Some(name)
  {
    KeysDiffer();
    LastValueAt([l0, l1, l2], VERSION_NAME_KEY, 1);
  }

  /**
   * After a successful write, reading the file gives the values written,
   * trimmed; on the privileged path this needs values without a single quote
   * or a backslash.
   */
  lemma WriteThenRead(versionCode: string, versionName: string,
                      privileged: PrivilegedOutcome, directWriteSucceeds: bool)
    requires NoLineTerminator(versionCode) && NoLineTerminator(versionName)
    requires privileged == Exited(0) ==> EchoVerbatim(versionCode) && EchoVerbatim(versionName)
    requires WriteConfig(versionCode, versionName, privileged, directWriteSucceeds).success
    ensures WriteConfig(versionCode, versionName, privileged, directWriteSucceeds).written.Some?
    ensures ParseLines(Lines(WriteConfig(versionCode, versionName, privileged, directWriteSucceeds).written.value))
      == Some(SpoofConfig(Trim(versionCode), Trim(versionName)))
  {
    ContentEchoVerbatim(versionCode, versionName);
    RoundTrip(versionCode, versionName);
  }
}
