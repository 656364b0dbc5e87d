/** `load_dotenv`: read `KEY=VALUE` lines from a `.env` file into the process
    environment without overwriting anything already set.

    The process environment is an object whose variable map is updated in
    place. A file is the list of its lines as read; a file that does not exist
    is None. */
module Dotenv {
  import opened Outcome
  import opened Strings

  /** Whether the operating system accepts `key=value` as a new variable:
      `putenv` refuses an empty name and a NUL character in name or value
      with `ValueError`. (A name never holds `=` here: it is cut at the first
      `=` of its line.) */
  predicate Settable(key: string, value: string)
  {
    key != "" && '\0' !in key && '\0' !in value
  }

  /** `os.environ`. */
  class Environment {
    var vars: map<string, string>

    constructor (initial: map<string, string>)
      ensures vars == initial
    {
      vars := initial;
    }

    /** `os.environ.setdefault(key, value)`: a key already present keeps its
        value; an absent one is added. `ok` is false when adding it raised
        `ValueError`, in which case nothing changes. */
    method SetDefault(key: string, value: string) returns (ok: bool)
      modifies this
      ensures ok <==> key in old(vars) || Settable(key, value)
      ensures key in old(vars) || !Settable(key, value) ==> vars == old(vars)
      ensures key !in old(vars) && Settable(key, value) ==> vars == old(vars)[key := value]
    {
      if key in vars {
        return true;
      }
      if !Settable(key, value) {
        return false;
      }
      vars := vars[key := value];
      return true;
    }
  }

  /** The value of a variable, as `os.environ.get(key)` returns it. */
  function EnvGet(vars: map<string, string>, key: string): (r: Option<string>)
    ensures r.Some? <==> key in vars
    ensures r.Some? ==> r.value == vars[key]
  {
    if key in vars then Some(vars[key]) else None
  }

  const Quote: set<char> := {'"'}
  const Apostrophe: set<char> := {'\''}

  /** Whether a stripped line is skipped: blank, a `#` comment, or no `=`. */
  predicate Skipped(line: string)
  {
    line == "" || line[0] == '#' || '=' !in line
  }

  /** `v.strip('"').strip("'")`. */
  function Dequote(v: string): string
  {
    var q := StripChars(v, Quote);
    StripChars(q, Apostrophe)
  }

  /** The value as stored: stripped of whitespace, then of `"` at both ends,
      then of `'` at both ends. */
  function Unquote(v: string): string
  {
    Dequote(Strip(v))
  }

  /** The key and value around the first `=` of a line, the key stripped of
      whitespace and the value unquoted. */
  function Assignment(line: string): (r: (string, string))
    requires '=' in line
    ensures '=' !in r.0 && Clean(r.0, Whitespace)
  {
    var i := FirstIndex(line, '=');
    StripKeepsOut(line[..i], Whitespace, '=');
    (Strip(line[..i]), Unquote(line[i + 1..]))
  }

  /** One line of the file: None when it is skipped, otherwise its key and
      value. */
  function ParseLine(raw: string): (r: Option<(string, string)>)
    ensures r.None? <==> Skipped(Strip(raw))
    ensures r.Some? ==> '=' !in r.value.0 && Clean(r.value.0, Whitespace)
  {
    var line := Strip(raw);
    if Skipped(line) then None else Some(Assignment(line))
  }

  /** A key or value with nothing for the parser to strip. */
  predicate Clean(s: string, cs: set<char>)
  {
    s == [] || (s[0] !in cs && s[|s| - 1] !in cs)
  }

  lemma StripClean(s: string)
    requires Clean(s, Whitespace)
    ensures Strip(s) == s
  {
    StripCharsUnchanged(s, Whitespace);
  }

  lemma UnquoteClean(v: string)
    requires Clean(v, Whitespace) && Clean(v, Quote) && Clean(v, Apostrophe)
    ensures Unquote(v) == v
  {
    StripClean(v);
    StripCharsUnchanged(v, Quote);
    StripCharsUnchanged(v, Apostrophe);
  }

  /** The first `=` of `key + "=" + value` is the one after the key. */
  lemma SplitAfterKey(key: string, value: string)
    requires '=' !in key
    ensures var line := key + "=" + value;
      FirstIndex(line, '=') == |key| && line[..|key|] == key && line[|key| + 1..] == value
  {
    var line := key + "=" + value;
    assert line[|key|] == '=';
    assert line[..|key|] == key;
    assert line[|key| + 1..] == value;
  }

  lemma AssignmentOf(key: string, value: string)
    requires '=' !in key && Clean(key, Whitespace)
    requires Clean(value, Whitespace) && Clean(value, Quote) && Clean(value, Apostrophe)
    ensures Assignment(key + "=" + value) == (key, value)
  {
    var line := key + "=" + value;
    SplitAfterKey(key, value);
    AssignmentParts(line, key, value);
    StripClean(key);
    UnquoteClean(value);
  }

  lemma AssignmentParts(line: string, key: string, value: string)
    requires '=' in line
    requires FirstIndex(line, '=') == |key| && line[..|key|] == key && line[|key| + 1..] == value
    ensures Assignment(line) == (Strip(key), Unquote(value))
  {
  }

  /** Writing `key=value` and parsing the line gives back the pair, whenever
      the key is non-empty, free of `=`, not a comment and without surrounding
      whitespace, and the value has no whitespace or quote at either end. The
      value may hold `=`: only the first one splits. */
  lemma ParseLineRoundTrip(key: string, value: string)
    requires key != [] && '=' !in key && key[0] != '#' && Clean(key, Whitespace)
    requires Clean(value, Whitespace) && Clean(value, Quote) && Clean(value, Apostrophe)
    ensures ParseLine(key + "=" + value) == Some((key, value))
  {
    var line := key + "=" + value;
    assert line[0] == key[0] && line[|key|] == '=';
    assert line[|line| - 1] == if value == [] then '=' else value[|value| - 1];
    StripClean(line);
    assert !Skipped(line);
    AssignmentOf(key, value);
  }

  /** A value in double quotes loses the quotes and keeps everything
      between them, whitespace included. */
  lemma UnquoteDoubleQuoted(v: string)
    requires Clean(v, Quote) && Clean(v, Apostrophe)
    ensures Unquote("\"" + v + "\"") == v
  {
    var w := "\"" + v + "\"";
    assert w == ['"'] + v + ['"'];
    StripClean(w);
    StripCharsWrapped(v, '"', Quote);
    StripCharsUnchanged(v, Apostrophe);
  }

  /** A value in single quotes loses the quotes and keeps everything
      between them, whitespace and double quotes included. */
  lemma UnquoteSingleQuoted(v: string)
    requires Clean(v, Apostrophe)
    ensures Unquote("'" + v + "'") == v
  {
    var w := "'" + v + "'";
    assert w == ['\''] + v + ['\''];
    StripClean(w);
    StripCharsUnchanged(w, Quote);
    StripCharsWrapped(v, '\'', Apostrophe);
  }

  /** Parsing `key=` followed by a quoted value. */
  lemma ParseQuotedLine(key: string, w: string)
    requires key != [] && '=' !in key && key[0] != '#' && Clean(key, Whitespace)
    requires |w| >= 2 && w[0] !in Whitespace && w[|w| - 1] !in Whitespace
    ensures ParseLine(key + "=" + w) == Some((key, Unquote(w)))
  {
    var line := key + "=" + w;
    assert line[0] == key[0] && line[|key|] == '=' && line[|line| - 1] == w[|w| - 1];
    StripClean(line);
    assert !Skipped(line);
    SplitAfterKey(key, w);
    AssignmentParts(line, key, w);
    StripClean(key);
  }

  /** `KEY="value"` stores `value`, with any whitespace inside the quotes. */
  lemma ParseLineDoubleQuoted(key: string, v: string)
    requires key != [] && '=' !in key && key[0] != '#' && Clean(key, Whitespace)
    requires Clean(v, Quote) && Clean(v, Apostrophe)
    ensures ParseLine(key + "=\"" + v + "\"") == Some((key, v))
  {
    var w := "\"" + v + "\"";
    assert key + "=\"" + v + "\"" == key + "=" + w;
    ParseQuotedLine(key, w);
    UnquoteDoubleQuoted(v);
  }

  /** `KEY='value'` stores `value`, with any whitespace inside the quotes. */
  lemma ParseLineSingleQuoted(key: string, v: string)
    requires key != [] && '=' !in key && key[0] != '#' && Clean(key, Whitespace)
    requires Clean(v, Apostrophe)
    ensures ParseLine(key + "='" + v + "'") == Some((key, v))
  {
    var w := "'" + v + "'";
    assert key + "='" + v + "'" == key + "=" + w;
    ParseQuotedLine(key, w);
    UnquoteSingleQuoted(v);
  }

  /** The parsed lines of a file, in order. */
  function ParseLines(lines: seq<string>): (r: seq<Option<(string, string)>>)
    ensures |r| == |lines|
    ensures forall i :: 0 <= i < |lines| ==> r[i] == ParseLine(lines[i])
  {
    if lines == [] then [] else ParseLines(lines[..|lines| - 1]) + [ParseLine(lines[|lines| - 1])]
  }

  /** The environment after applying parsed lines in order: skipped lines
      change nothing, a key already present is kept, an absent key is added,
      and the first variable that cannot be set ends the loading (the
      exception is swallowed, the rest of the file is not read). */
  function Applied(env: map<string, string>, parsed: seq<Option<(string, string)>>): map<string, string>
    decreases |parsed|
  {
    if parsed == [] then env
    else
      match parsed[0]
      case None => Applied(env, parsed[1..])
      case Some(kv) =>
        if kv.0 in env then Applied(env, parsed[1..])
        else if Settable(kv.0, kv.1) then Applied(env[kv.0 := kv.1], parsed[1..])
        else env
  }

  /** Applying `parsed` to `env` goes through every line: no variable is refused. */
  predicate Completes(env: map<string, string>, parsed: seq<Option<(string, string)>>)
    decreases |parsed|
  {
    parsed == [] ||
    match parsed[0]
    case None => Completes(env, parsed[1..])
    case Some(kv) =>
      if kv.0 in env then Completes(env, parsed[1..])
      else Settable(kv.0, kv.1) && Completes(env[kv.0 := kv.1], parsed[1..])
  }

  /** The environment after `load_dotenv` for a file that may not exist. */
  function Loading(env: map<string, string>, file: Option<seq<string>>): map<string, string>
  {
    if file.None? then env else Applied(env, ParseLines(file.value))
  }

  /** `load_dotenv`: a missing file leaves the environment as it is; otherwise
      its lines are parsed and applied in order. */
  method LoadDotenv(env: Environment, file: Option<seq<string>>)
    modifies env
    ensures env.vars == Loading(old(env.vars), file)
  {
    if file.None? {
      return;
    }
    var lines := file.value;
    ghost var all := ParseLines(lines);
    for i := 0 to |lines|
      invariant Applied(env.vars, all[i..]) == Applied(old(env.vars), all)
    {
      assert all[i..][0] == all[i] && all[i..][1..] == all[i + 1..];
      var parsed := ParseLine(lines[i]);
      if parsed.None? {
        continue;
      }
      var ok := env.SetDefault(parsed.value.0, parsed.value.1);
      if !ok {
        return;
      }
    }
    assert all[|lines|..] == [];
  }

  /** A skipped line (blank once stripped, a `#` comment, or without `=`)
      changes nothing. */
  lemma SkippedLine(env: map<string, string>, line: string, rest: seq<Option<(string, string)>>)
    requires Skipped(Strip(line))
    ensures Applied(env, [ParseLine(line)] + rest) == Applied(env, rest)
  {
    var parsed := [ParseLine(line)] + rest;
    assert parsed[0] == None;
    assert parsed[1..] == rest;
  }

  /** A variable already set keeps its value whatever the file says. */
  lemma {:induction false} AppliedKeepsExisting(env: map<string, string>, parsed: seq<Option<(string, string)>>)
    ensures env.Keys <= Applied(env, parsed).Keys
    ensures forall k :: k in env ==> Applied(env, parsed)[k] == env[k]
    decreases |parsed|
  {
    if parsed != [] {
      match parsed[0]
      case None => AppliedKeepsExisting(env, parsed[1..]);
      case Some(kv) =>
        if kv.0 in env {
          AppliedKeepsExisting(env, parsed[1..]);
        } else if Settable(kv.0, kv.1) {
          AppliedKeepsExisting(env[kv.0 := kv.1], parsed[1..]);
        }
    }
  }

  /** The parsed line sets (or tries to set) the variable `key`. */
  predicate Names(entry: Option<(string, string)>, key: string)
  {
    entry.Some? && entry.value.0 == key
  }

  /** Every variable the loading adds is named by some line of the file. */
  lemma {:induction false} AppliedKeysFromFile(env: map<string, string>, parsed: seq<Option<(string, string)>>, key: string)
    requires key in Applied(env, parsed) && key !in env
    ensures exists i :: 0 <= i < |parsed| && Names(parsed[i], key)
    decreases |parsed|
  {
    assert parsed != [];
    match parsed[0]
    case None =>
      AppliedKeysFromFile(env, parsed[1..], key);
      var i :| 0 <= i < |parsed[1..]| && Names(parsed[1..][i], key);
      assert Names(parsed[i + 1], key);
    case Some(kv) =>
      if kv.0 == key {
        assert Names(parsed[0], key);
      } else {
        var next := if kv.0 !in env && Settable(kv.0, kv.1) then env[kv.0 := kv.1] else env;
        assert kv.0 in env || Settable(kv.0, kv.1);
        AppliedKeysFromFile(next, parsed[1..], key);
        var i :| 0 <= i < |parsed[1..]| && Names(parsed[1..][i], key);
        assert Names(parsed[i + 1], key);
      }
  }

  /** Loading a file in two parts: once the first part is gone through, the
      second continues from the environment the first left. */
  lemma {:induction false} AppliedAppend(env: map<string, string>, a: seq<Option<(string, string)>>, b: seq<Option<(string, string)>>)
    requires Completes(env, a)
    ensures Applied(env, a + b) == Applied(Applied(env, a), b)
    decreases |a|
  {
    if a != [] {
      assert (a + b)[0] == a[0] && (a + b)[1..] == a[1..] + b;
      match a[0]
      case None => AppliedAppend(env, a[1..], b);
      case Some(kv) =>
        if kv.0 in env {
          AppliedAppend(env, a[1..], b);
        } else {
          AppliedAppend(env[kv.0 := kv.1], a[1..], b);
        }
    } else {
      assert a + b == b;
    }
  }

  /** Among lines naming the same variable, the first one wins: when no
      earlier line names `key`, the variable was not set before, and the line
      sets it to `value`, then `value` is what the environment ends with,
      whatever later lines say. */
  lemma FirstOccurrenceWins(env: map<string, string>, before: seq<Option<(string, string)>>, after: seq<Option<(string, string)>>, key: string, value: string)
    requires Completes(env, before)
    requires key !in env
    requires forall i :: 0 <= i < |before| ==> !Names(before[i], key)
    requires Settable(key, value)
    ensures key in Applied(env, before + [Some((key, value))] + after)
    ensures Applied(env, before + [Some((key, value))] + after)[key] == value
  {
    var mid := Applied(env, before);
    if key in mid {
      AppliedKeysFromFile(env, before, key);
    }
    var line := Some((key, value));
    AppliedAppend(env, before, [line] + after);
    assert before + [line] + after == before + ([line] + after);
    assert ([line] + after)[0] == line && ([line] + after)[1..] == after;
    AppliedKeepsExisting(mid[key := value], after);
  }
}
