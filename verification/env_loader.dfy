/** `loadEnv` of the API server: the secret holding the environment is named
    after the stage, and its text payload is read as `KEY=value` lines. Fetching
    the secret and writing `process.env` are outside the model; the payload is a
    parameter and the result is the map of variables the lines define. */
module EnvLoader {
  import opened Wrappers
  import Text

  /** `STAGE_ENV ?? NODE_ENV ?? 'development'`. */
  function EnvMode(stageEnv: Option<string>, nodeEnv: Option<string>): (mode: string)
    ensures stageEnv.Some? ==> mode == stageEnv.value
    ensures stageEnv.None? && nodeEnv.Some? ==> mode == nodeEnv.value
    ensures stageEnv.None? && nodeEnv.None? ==> mode == "development"
  {
    match stageEnv
    case Some(s) => s
    case None => nodeEnv.GetOr("development")
  }

  const SecretPrefix: string := "projects/859506126692/secrets/api-server-"
  const SecretSuffix: string := "/versions/latest"

  /** The secret version read for a mode. */
  function SecretVersionName(mode: string): (name: string)
    ensures |name| == |SecretPrefix| + |mode| + |SecretSuffix|
    ensures name[|SecretPrefix|..|SecretPrefix| + |mode|] == mode
  {
    SecretPrefix + mode + SecretSuffix
  }

  /** Different modes read different secrets. */
  lemma SecretVersionNameInjective(m1: string, m2: string)
    requires SecretVersionName(m1) == SecretVersionName(m2)
    ensures m1 == m2
  {
  }

  /** The environment file's variables. */
  type Env = map<string, string>

  /** The raw name of a line: the text before its first `=`. */
  function RawKey(line: string): string {
    Text.Split(line, "=")[0]
  }

  /** The value of a line: the text after its first `=`, other `=` signs kept,
      trimmed. */
  function LineValue(line: string): string {
    Text.Trim(Text.Join(Text.Split(line, "=")[1..], "="))
  }

  /** What one line sets: the trimmed name and the value, for a line with a
      non-empty raw name; nothing for any other line. So a line without `=`
      names the variable of its whole trimmed text with the empty value, and a
      line with `=` sets the trimmed text before its first `=` to the trimmed
      text after it, unless that `=` is the line's first character. */
  function LineSetting(line: string): (r: Option<(string, string)>)
    ensures Text.IndexOf(line, "=").None? ==>
              (r.Some? <==> line != "") && (r.Some? ==> r.value == (Text.Trim(line), ""))
    ensures Text.IndexOf(line, "=").Some? ==>
              var i := Text.IndexOf(line, "=").value;
              && (r.Some? <==> i > 0)
              && (r.Some? ==> r.value == (Text.Trim(line[..i]), Text.Trim(line[i + 1..])))
  {
    LineSplitsAtFirstEquals(line);
    if RawKey(line) != "" then Some((Text.Trim(RawKey(line)), LineValue(line))) else None
  }

  /** Applying the settings of the lines in order, each over the result of the
      ones before. */
  function Apply(env: Env, settings: seq<Option<(string, string)>>): (r: Env)
    ensures forall k :: k in r <==> k in env || exists i :: Sets(settings, i, k)
    ensures forall k :: k in env && (forall i :: !Sets(settings, i, k)) ==> r[k] == env[k]
    decreases |settings|
  {
    if |settings| == 0 then env
    else
      var init := settings[..|settings| - 1];
      var before := Apply(env, init);
      assert forall i, k :: Sets(init, i, k) <==> i < |init| && Sets(settings, i, k);
      var last := |settings| - 1;
      match settings[last]
      case None =>
        assert forall k :: !Sets(settings, last, k);
        before
      case Some(kv) =>
        assert Sets(settings, last, kv.0);
        assert forall k :: k != kv.0 ==> !Sets(settings, last, k);
        before[kv.0 := kv.1]
  }

  /** The lines that are not blank, in order. */
  function NonBlank(lines: seq<string>): (r: seq<string>)
    ensures forall l :: l in r <==> l in lines && Text.Trim(l) != ""
    ensures |r| <= |lines|
  {
    if |lines| == 0 then []
    else
      var rest := NonBlank(lines[..|lines| - 1]);
      var last := lines[|lines| - 1];
      assert lines == lines[..|lines| - 1] + [last];
      if Text.Trim(last) != "" then rest + [last] else rest
  }

  /** Keeping the non-blank lines of two runs of lines keeps those of the first
      run, in order, before those of the second. */
  lemma {:induction false} NonBlankConcat(a: seq<string>, b: seq<string>)
    ensures NonBlank(a + b) == NonBlank(a) + NonBlank(b)
    decreases |b|
  {
    if |b| == 0 {
      assert a + b == a;
    } else {
      var init := b[..|b| - 1];
      assert (a + b)[..|a + b| - 1] == a + init;
      assert (a + b)[|a + b| - 1] == b[|b| - 1];
      NonBlankConcat(a, init);
    }
  }

  /** A single line is kept exactly when it is not blank. */
  lemma NonBlankSingle(line: string)
    ensures NonBlank([line]) == if Text.Trim(line) != "" then [line] else []
  {
    assert [line][..0] == [];
  }

  /** The lines of a payload: a missing payload reads as the empty string, which
      is cut at every line feed. */
  function PayloadLines(payload: Option<string>): (lines: seq<string>)
    ensures |lines| >= 1
  {
    Text.Split(payload.GetOr(""), "\n")
  }

  /** `loadEnv`'s parsing: a variable is defined exactly when some non-blank
      line of the payload names it. */
  function ParseEnv(payload: Option<string>): (r: Env)
    ensures forall k :: k in r <==> exists i :: Sets(PayloadSettings(PayloadLines(payload)), i, k)
  {
    var lines := PayloadLines(payload);
    ParseLinesDefinedIff(lines);
    ParseLines(lines)
  }

  /** The variables a run of lines defines: the non-blank lines are read in
      order, each over the result of the ones before. */
  function ParseLines(lines: seq<string>): Env {
    Apply(map[], Settings(NonBlank(lines)))
  }

  /** What a line of the payload contributes: nothing when it is blank, which
      drops it before it is read, and its setting otherwise. */
  function PayloadLineSetting(line: string): Option<(string, string)> {
    if Text.Trim(line) == "" then None else LineSetting(line)
  }

  /** The contribution of each line of the payload, in order. */
  function PayloadSettings(lines: seq<string>): (r: seq<Option<(string, string)>>)
    ensures |r| == |lines| && forall i :: 0 <= i < |lines| ==> r[i] == PayloadLineSetting(lines[i])
  {
    seq(|lines|, i requires 0 <= i < |lines| => PayloadLineSetting(lines[i]))
  }

  /** Applying one more setting. */
  lemma ApplyLast(env: Env, settings: seq<Option<(string, string)>>, last: Option<(string, string)>)
    ensures last.None? ==> Apply(env, settings + [last]) == Apply(env, settings)
    ensures last.Some? ==> Apply(env, settings + [last]) == Apply(env, settings)[last.value.0 := last.value.1]
  {
    assert (settings + [last])[..|settings|] == settings;
  }

  lemma SettingsLast(lines: seq<string>, line: string)
    ensures Settings(lines + [line]) == Settings(lines) + [LineSetting(line)]
  {
  }

  lemma PayloadSettingsLast(lines: seq<string>, line: string)
    ensures PayloadSettings(lines + [line]) == PayloadSettings(lines) + [PayloadLineSetting(line)]
  {
  }

  /** Dropping the blank lines and then reading the rest gives what reading every
      line of the payload gives when a blank line counts as setting nothing. */
  lemma {:induction false} FilterThenApply(lines: seq<string>)
    ensures ParseLines(lines) == Apply(map[], PayloadSettings(lines))
    decreases |lines|
  {
    if |lines| > 0 {
      var init := lines[..|lines| - 1];
      var last := lines[|lines| - 1];
      assert lines == init + [last];
      FilterThenApply(init);
      FilterOneMore(init, last);
    }
  }

  /** The inductive step: one more line read after the lines `init`. */
  lemma FilterOneMore(init: seq<string>, last: string)
    requires ParseLines(init) == Apply(map[], PayloadSettings(init))
    ensures ParseLines(init + [last]) == Apply(map[], PayloadSettings(init + [last]))
  {
    NonBlankConcat(init, [last]);
    NonBlankSingle(last);
    PayloadSettingsLast(init, last);
    ApplyLast(map[], PayloadSettings(init), PayloadLineSetting(last));
    if Text.Trim(last) != "" {
      assert NonBlank(init + [last]) == NonBlank(init) + [last];
      SettingsLast(NonBlank(init), last);
      ApplyLast(map[], Settings(NonBlank(init)), LineSetting(last));
    } else {
      assert NonBlank(init + [last]) == NonBlank(init) + [];
      assert NonBlank(init) + [] == NonBlank(init);
    }
  }

  /** The setting of each line, in order. */
  function Settings(lines: seq<string>): (r: seq<Option<(string, string)>>)
    ensures |r| == |lines| && forall i :: 0 <= i < |lines| ==> r[i] == LineSetting(lines[i])
  {
    seq(|lines|, i requires 0 <= i < |lines| => LineSetting(lines[i]))
  }

  /** The name and the value of a line are the text before and after its first
      `=`, trimmed; a line without `=` has the whole line as its name and the
      empty value. */
  lemma LineSplitsAtFirstEquals(line: string)
    ensures Text.IndexOf(line, "=").None? ==> RawKey(line) == line && LineValue(line) == ""
    ensures Text.IndexOf(line, "=").Some? ==>
              var i := Text.IndexOf(line, "=").value;
              RawKey(line) == line[..i] && LineValue(line) == Text.Trim(line[i + 1..])
  {
    Text.SplitFirstPiece(line, "=");
    Text.JoinSplitTail(line, "=");
    Text.TrimOfTrimmed("");
  }

  /** The setting at position `i` is for the variable `k`. */
  predicate Sets(settings: seq<Option<(string, string)>>, i: int, k: string) {
    0 <= i < |settings| && settings[i].Some? && settings[i].value.0 == k
  }

  /** The value of a variable is the one of the last line that sets it. */
  lemma {:induction false} LastDefinitionWins(settings: seq<Option<(string, string)>>, k: string, i: nat)
    requires Sets(settings, i, k)
    requires forall j :: i < j < |settings| ==> !Sets(settings, j, k)
    ensures k in Apply(map[], settings) && Apply(map[], settings)[k] == settings[i].value.1
    decreases |settings|
  {
    if i < |settings| - 1 {
      var init := settings[..|settings| - 1];
      forall j | i < j < |init| ensures !Sets(init, j, k) {
        assert !Sets(settings, j, k);
      }
      LastDefinitionWins(init, k, i);
      assert !Sets(settings, |settings| - 1, k);
    }
  }

  /** A variable is defined exactly when some non-blank line of the payload sets
      it. */
  lemma ParseLinesDefinedIff(lines: seq<string>)
    ensures forall k :: k in ParseLines(lines) <==> exists i :: Sets(PayloadSettings(lines), i, k)
  {
    FilterThenApply(lines);
  }

  /** For the lines of a payload: the variable a non-blank line names has the
      value of that line when no later line names it. */
  lemma ParseLinesLastLineWins(lines: seq<string>, k: string, i: nat)
    requires i < |lines| && Text.Trim(lines[i]) != ""
    requires LineSetting(lines[i]) == Some((k, LineValue(lines[i])))
    requires forall j :: i < j < |lines| ==>
               Text.Trim(lines[j]) == "" || LineSetting(lines[j]).None? || LineSetting(lines[j]).value.0 != k
    ensures k in ParseLines(lines) && ParseLines(lines)[k] == LineValue(lines[i])
  {
    var settings := PayloadSettings(lines);
    LastLineSets(lines, k, i);
    LastDefinitionWins(settings, k, i);
    FilterThenApply(lines);
  }

  /** The line the lemma above is about is the last setting for `k`. */
  lemma LastLineSets(lines: seq<string>, k: string, i: nat)
    requires i < |lines| && Text.Trim(lines[i]) != ""
    requires LineSetting(lines[i]) == Some((k, LineValue(lines[i])))
    requires forall j :: i < j < |lines| ==>
               Text.Trim(lines[j]) == "" || LineSetting(lines[j]).None? || LineSetting(lines[j]).value.0 != k
    ensures Sets(PayloadSettings(lines), i, k) && PayloadSettings(lines)[i].value.1 == LineValue(lines[i])
    ensures forall j :: i < j < |lines| ==> !Sets(PayloadSettings(lines), j, k)
  {
    var settings := PayloadSettings(lines);
    assert settings[i] == LineSetting(lines[i]);
    forall j | i < j < |settings| ensures !Sets(settings, j, k) {
      if Text.Trim(lines[j]) == "" {
        assert settings[j] == None;
      } else {
        assert settings[j] == LineSetting(lines[j]);
      }
    }
  }

  /** No payload, or an empty one, defines nothing. */
  lemma MissingPayloadDefinesNothing()
    ensures ParseEnv(None) == map[]
    ensures ParseEnv(Some("")) == map[]
  {
    assert Text.IndexOf("", "\n").None?;
    assert PayloadLines(None) == [""] && PayloadLines(Some("")) == [""];
    assert Text.Trim("") == "";
    assert PayloadSettings([""]) == [None];
    FilterThenApply([""]);
    ApplyLast(map[], [], None);
  }

  /** A line that starts with `=` has an empty raw name and is skipped; a line
      whose name is only spaces defines the variable with the empty name. */
  lemma NamelessLines(value: string)
    ensures LineSetting("=" + value).None?
    ensures LineSetting(" =" + value) == Some(("", LineValue(" =" + value)))
  {
    var l1 := "=" + value;
    assert Text.OccursAt(l1, "=", 0) by { assert l1[0..1] == "="; }
    assert Text.IndexOf(l1, "=") == Some(0);
    var l2 := " =" + value;
    assert Text.OccursAt(l2, "=", 1) by { assert l2[1..2] == "="; }
    assert !Text.OccursAt(l2, "=", 0) by { assert l2[0] == ' '; }
    assert Text.IndexOf(l2, "=") == Some(1);
    assert RawKey(l2) == " ";
    Text.TrimSkipsLeadingWhitespace(' ', "");
    Text.TrimOfTrimmed("");
  }
}
