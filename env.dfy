/**
 * The `.env` reader: the configuration text is split into lines on '\n';
 * each line is trimmed, blank lines and lines starting with '#' are
 * skipped, and any other line containing '=' defines the key before the
 * first '=' as the value after it, both trimmed. A later line overrides
 * an earlier one with the same key.
 */
module Env {
  import opened Optional
  import opened Seqs

  /**
   * The characters JavaScript's `String.prototype.trim` removes: the
   * white-space characters (tab, vertical tab, form feed, space, no-break
   * space, byte order mark and the other space separators) and the line
   * terminators (line feed, carriage return, line and paragraph separator).
   */
  predicate IsSpace(c: char)
  {
    || c == '\t' || c == '\U{000B}' || c == '\U{000C}' || c == ' ' || c == '\U{00A0}' || c == '\U{FEFF}'
    || c == '\n' || c == '\r' || c == '\U{2028}' || c == '\U{2029}'
    || c == '\U{1680}' || ('\U{2000}' <= c <= '\U{200A}') || c == '\U{202F}' || c == '\U{205F}' || c == '\U{3000}'
  }

  /** `s` without its leading white space. */
  function TrimStart(s: string): (r: string)
    ensures |r| <= |s| && r == s[|s| - |r|..]
    ensures forall i | 0 <= i < |s| - |r| :: IsSpace(s[i])
    ensures r == [] || !IsSpace(r[0])
  {
    if s != [] && IsSpace(s[0]) then TrimStart(s[1..]) else s
  }

  /** `s` without its trailing white space. */
  function TrimEnd(s: string): (r: string)
    ensures |r| <= |s| && r == s[..|r|]
    ensures forall i | |r| <= i < |s| :: IsSpace(s[i])
    ensures r == [] || !IsSpace(r[|r| - 1])
  {
    if s != [] && IsSpace(s[|s| - 1]) then TrimEnd(s[..|s| - 1]) else s
  }

  /** `s` without leading and trailing white space. */
  function Trim(s: string): (r: string)
    ensures |r| <= |s|
    ensures r == [] || (!IsSpace(r[0]) && !IsSpace(r[|r| - 1]))
  {
    TrimEnd(TrimStart(s))
  }

  /**
   * The trimmed string is the middle part of `s` that is left after
   * removing white space only, from both ends.
   */
  lemma TrimIsMiddle(s: string)
    ensures exists i | 0 <= i <= |s| - |Trim(s)| ::
              && Trim(s) == s[i..][..|Trim(s)|]
              && (forall j | 0 <= j < i :: IsSpace(s[j]))
              && (forall j | i + |Trim(s)| <= j < |s| :: IsSpace(s[j]))
  {
    var t := TrimStart(s);
    var r := TrimEnd(t);
    var i := |s| - |t|;
    assert Trim(s) == r;
    assert t == s[i..];
    assert r == s[i..][..|r|];
    assert forall j | 0 <= j < i :: IsSpace(s[j]);
    assert forall j | i + |r| <= j < |s| :: IsSpace(s[j]) by {
      forall j | i + |r| <= j < |s| ensures IsSpace(s[j]) {
        assert s[j] == t[j - i];
      }
    }
  }

  /** A string with no white space at either end is its own trimmed form. */
  lemma TrimOfTrimmed(s: string)
    requires s == [] || (!IsSpace(s[0]) && !IsSpace(s[|s| - 1]))
    ensures Trim(s) == s
  {
  }

  /** Trimming a string ending in white space is trimming it without that character. */
  lemma {:induction false} TrimStartSnoc(s: string, c: char)
    ensures TrimStart(s + [c]) == if TrimStart(s) == [] then TrimStart([c]) else TrimStart(s) + [c]
  {
    if s != [] {
      assert (s + [c])[1..] == s[1..] + [c];
      TrimStartSnoc(s[1..], c);
    }
  }

  /** A trailing carriage return, as left by "\r\n" line ends, is removed by the trim. */
  lemma TrimDropsCarriageReturn(s: string)
    ensures Trim(s + "\r") == Trim(s)
  {
    TrimStartSnoc(s, '\r');
    var t := TrimStart(s);
    assert IsSpace('\r');
    if t == [] {
      assert TrimStart("\r") == TrimStart([]) == [];
      assert TrimStart(s + "\r") == [];
      assert Trim(s + "\r") == TrimEnd([]) == Trim(s);
    } else {
      var u := t + "\r";
      assert TrimStart(s + "\r") == u;
      assert u[|u| - 1] == '\r' && u[..|u| - 1] == t;
      assert TrimEnd(u) == TrimEnd(t);
      assert Trim(s + "\r") == TrimEnd(u);
    }
  }

  // ---------------------------------------------------------------------
  // Lines
  // ---------------------------------------------------------------------

  /** `text.split('\n')`: the pieces between line feeds, at least one. */
  function SplitLines(text: string): (lines: seq<string>)
    ensures |lines| >= 1
    ensures forall k | 0 <= k < |lines| :: '\n' !in lines[k]
    ensures JoinLines(lines) == text
    decreases |text|
  {
    var i := IndexOf(text, '\n');
    if i == -1 then [text]
    else
      var rest := SplitLines(text[i + 1..]);
      var lines := [text[..i]] + rest;
      assert lines[1..] == rest;
      assert JoinLines(lines) == text[..i] + "\n" + JoinLines(rest);
      assert text == text[..i] + "\n" + text[i + 1..];
      assert forall k | 1 <= k < |lines| :: lines[k] == rest[k - 1];
      lines
  }

  /** `lines.join('\n')`. */
  function JoinLines(lines: seq<string>): string
    requires |lines| >= 1
  {
    if |lines| == 1 then lines[0] else lines[0] + "\n" + JoinLines(lines[1..])
  }

  /** Splitting the joined lines gives the lines back when none contains a line feed. */
  lemma {:induction false} SplitJoinLines(lines: seq<string>)
    requires |lines| >= 1
    requires forall k | 0 <= k < |lines| :: '\n' !in lines[k]
    ensures SplitLines(JoinLines(lines)) == lines
  {
    var text := JoinLines(lines);
    var first := lines[0];
    assert '\n' !in first;
    if |lines| == 1 {
      assert IndexOf(text, '\n') == -1;
    } else {
      var tail := lines[1..];
      assert forall k | 0 <= k < |tail| :: '\n' !in tail[k] by {
        forall k | 0 <= k < |tail| ensures '\n' !in tail[k] {
          assert tail[k] == lines[k + 1];
        }
      }
      var rest := JoinLines(tail);
      assert text == first + "\n" + rest;
      assert text[|first|] == '\n';
      assert text[..|first|] == first;
      IndexOfFirst(text, '\n', |first|);
      assert text[|first| + 1..] == rest;
      SplitJoinLines(tail);
      assert SplitLines(text) == [first] + SplitLines(rest);
      assert lines == [first] + tail;
    }
  }

  // ---------------------------------------------------------------------
  // Entries
  // ---------------------------------------------------------------------

  /** The key and value a line defines, if any. */
  function LineEntry(raw: string): Option<(string, string)>
  {
    var line := Trim(raw);
    if line == [] || line[0] == '#' then None
    else
      var eqIndex := IndexOf(line, '=');
      if eqIndex == -1 then None
      else Some((Trim(line[..eqIndex]), Trim(line[eqIndex + 1..])))
  }

  /**
   * The entry of each line, in order: the sequence `EnvOf` folds. Its
   * ensures spell out the comprehension so that the fold lemmas below can
   * index it without unfolding it.
   */
  function Entries(lines: seq<string>): (es: seq<Option<(string, string)>>)
    ensures |es| == |lines|
    ensures forall i | 0 <= i < |lines| :: es[i] == LineEntry(lines[i])
  {
    seq(|lines|, i requires 0 <= i < |lines| => LineEntry(lines[i]))
  }

  /**
   * The one key a plain JavaScript object does not store as its own:
   * assigning a string to it goes to the prototype setter, which ignores
   * anything that is not an object.
   */
  const ProtoKey: string := "__proto__"

  /** Sets `key` to `value` in `env` as a plain object does: every key but `ProtoKey` is stored. */
  function Store(env: map<string, string>, key: string, value: string): (env': map<string, string>)
    ensures key != ProtoKey ==> env' == env[key := value]
    ensures key == ProtoKey ==> env' == env
  {
    if key == ProtoKey then env else env[key := value]
  }

  /** Entries folded in order, a later entry replacing an earlier one with the same key. */
  function Assign(es: seq<Option<(string, string)>>): map<string, string>
  {
    if es == [] then map[]
    else
      var env := Assign(es[..|es| - 1]);
      match es[|es| - 1]
      case None => env
      case Some((key, value)) => Store(env, key, value)
  }

  /** The map a `.env` text made of `lines` defines. */
  function EnvOf(lines: seq<string>): map<string, string>
  {
    Assign(Entries(lines))
  }

  /**
   * Reads the `.env` text: for each line, trim it, skip it when it is
   * blank, a comment or has no '=', and otherwise set the trimmed key
   * before the first '=' to the trimmed value after it, as a plain object
   * stores it.
   */
  method ParseEnv(text: string) returns (env: map<string, string>)
    ensures env == EnvOf(SplitLines(text))
  {
    var lines := SplitLines(text);
    env := map[];
    for i := 0 to |lines|
      invariant env == EnvOf(lines[..i])
    {
      EnvOfStep(lines, i);
      match LineEntry(lines[i])
      case None =>
      case Some((key, value)) =>
        if key != ProtoKey {
          env := env[key := value];
        }
    }
    assert lines[..|lines|] == lines;
  }

  /** One more line adds its entry, if any, to the map of the lines before it. */
  lemma EnvOfStep(lines: seq<string>, i: int)
    requires 0 <= i < |lines|
    ensures EnvOf(lines[..i + 1]) ==
              match LineEntry(lines[i])
              case None => EnvOf(lines[..i])
              case Some((key, value)) => Store(EnvOf(lines[..i]), key, value)
  {
    var es := Entries(lines[..i + 1]);
    assert es[..i] == Entries(lines[..i]);
    assert es[i] == LineEntry(lines[i]);
  }

  /** Blank lines, comments and lines without '=' define nothing. */
  lemma SkippedLines(raw: string)
    ensures Trim(raw) == [] ==> LineEntry(raw) == None
    ensures Trim(raw) != [] && Trim(raw)[0] == '#' ==> LineEntry(raw) == None
    ensures '=' !in Trim(raw) ==> LineEntry(raw) == None
  {
  }

  /**
   * A line `key=value` with a trimmed key that is not empty, holds no '='
   * and does not start with '#', and a trimmed value, defines exactly
   * that key and value, even when the value itself contains '='.
   */
  lemma EntryRoundTrip(key: string, value: string)
    requires key != [] && key[0] != '#' && '=' !in key
    requires !IsSpace(key[0]) && !IsSpace(key[|key| - 1])
    requires value == [] || (!IsSpace(value[0]) && !IsSpace(value[|value| - 1]))
    ensures LineEntry(key + "=" + value) == Some((key, value))
  {
    var line := key + "=" + value;
    assert line[..|key|] == key && line[|key| + 1..] == value;
    assert Trim(line) == line by {
      assert line[0] == key[0];
      assert !IsSpace(line[|line| - 1]);
      TrimOfTrimmed(line);
    }
    assert IndexOf(line, '=') == |key| by {
      assert line[|key|] == '=';
      IndexOfFirst(line, '=', |key|);
    }
    TrimOfTrimmed(key);
    TrimOfTrimmed(value);
    TrimmedLineEntry(line, |key|);
  }

  /** The entry of a trimmed line that is not a comment, split at its first '='. */
  lemma TrimmedLineEntry(line: string, eqIndex: int)
    requires Trim(line) == line && line != [] && line[0] != '#'
    requires 0 <= eqIndex && IndexOf(line, '=') == eqIndex
    ensures LineEntry(line) == Some((Trim(line[..eqIndex]), Trim(line[eqIndex + 1..])))
  {
  }

  /** Whether `line` assigns key `k` and the object stores it. */
  predicate DefinesKey(line: string, k: string)
  {
    Assigns(LineEntry(line), k)
  }

  /** Whether entry `e` assigns key `k` and the object stores it. */
  predicate Assigns(e: Option<(string, string)>, k: string)
  {
    e.Some? && e.value.0 == k && k != ProtoKey
  }

  /** A key is in the folded map exactly when some entry assigns it. */
  lemma {:induction false} AssignedKeys(es: seq<Option<(string, string)>>, k: string)
    ensures k in Assign(es) <==> exists i | 0 <= i < |es| :: Assigns(es[i], k)
  {
    if es != [] {
      var init := es[..|es| - 1];
      AssignedKeys(init, k);
      if k in Assign(es) && !Assigns(es[|es| - 1], k) {
        var i :| 0 <= i < |init| && Assigns(init[i], k);
        assert es[i] == init[i];
      }
      if exists i | 0 <= i < |es| :: Assigns(es[i], k) {
        var i :| 0 <= i < |es| && Assigns(es[i], k);
        if i < |init| {
          assert init[i] == es[i];
        }
      }
    }
  }

  /** The value of a key in the folded map is the one of the last entry assigning it. */
  lemma {:induction false} LastAssignedValue(es: seq<Option<(string, string)>>, k: string)
    requires k in Assign(es)
    ensures exists i | 0 <= i < |es| ::
              && es[i] == Some((k, Assign(es)[k]))
              && forall j | i < j < |es| :: !Assigns(es[j], k)
  {
    var n := |es|;
    var init := es[..n - 1];
    if !Assigns(es[n - 1], k) {
      LastAssignedValue(init, k);
      var i :| 0 <= i < |init| && init[i] == Some((k, Assign(init)[k]))
                && forall j | i < j < |init| :: !Assigns(init[j], k);
      assert es[i] == init[i];
      forall j | i < j < n ensures !Assigns(es[j], k) {
        if j < n - 1 {
          assert es[j] == init[j];
        }
      }
    }
  }

  /** A key is in the parsed map exactly when some line assigns it. */
  lemma KeysComeFromLines(lines: seq<string>, k: string)
    ensures k in EnvOf(lines) <==> exists i | 0 <= i < |lines| :: DefinesKey(lines[i], k)
  {
    var es := Entries(lines);
    AssignedKeys(es, k);
    assert forall i | 0 <= i < |lines| :: DefinesKey(lines[i], k) == Assigns(es[i], k);
  }

  /** A line assigning `ProtoKey` never puts it into the parsed map. */
  lemma ProtoKeyNotStored(lines: seq<string>)
    ensures ProtoKey !in EnvOf(lines)
  {
    KeysComeFromLines(lines, ProtoKey);
  }

  /** The value of a key is the one given by the last line that assigns it. */
  lemma LastAssignmentWins(lines: seq<string>, k: string)
    requires k in EnvOf(lines)
    ensures exists i | 0 <= i < |lines| ::
              && LineEntry(lines[i]) == Some((k, EnvOf(lines)[k]))
              && forall j | i < j < |lines| :: !DefinesKey(lines[j], k)
  {
    var es := Entries(lines);
    LastAssignedValue(es, k);
    var i :| 0 <= i < |es| && es[i] == Some((k, Assign(es)[k])) && forall j | i < j < |es| :: !Assigns(es[j], k);
    assert forall j | 0 <= j < |lines| :: DefinesKey(lines[j], k) == Assigns(es[j], k);
  }
}
