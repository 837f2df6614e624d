/** Per-URL overrides: every override is built by parsing the base command's set flags, written
    out again as arguments, followed by the flags of the override.

    The command-line parser is taken as reading its arguments from left to right, the last value
    of a flag winning. What it makes of one flag's text (the typed readers and the validators)
    is a parameter. */
module Overrides {
  import opened RequestConfigs
  import opened RenderingOptions
  import opened FlagText
  import OverrideFlags

  datatype Error =
    | UnnamedFlag
    | NoSeparator | EmptyPattern | BadPattern
    | BadFlag | WidthRange | HeightRange | ScaleRange

  datatype Result<T> = Ok(value: T) | Err(why: Error)

  // ---------- Writing flags out ----------

  /** The value of a flag: a scalar in its printed form, a list of strings, or a list of values. */
  datatype FlagValue = Scalar(text: string) | Texts(texts: seq<string>) | Items(items: seq<FlagValue>)

  datatype Flag = Flag(names: seq<string>, isSet: bool, value: FlagValue)

  /** The texts of a value, from left to right. */
  function TextsOf(v: FlagValue): seq<string>
    decreases v, 0
  {
    match v
    case Scalar(text) => [text]
    case Texts(texts) => texts
    case Items(items) => TextsOfAll(items)
  }

  function TextsOfAll(vs: seq<FlagValue>): seq<string>
    decreases vs
  {
    if vs == [] then [] else TextsOf(vs[0]) + TextsOfAll(vs[1..])
  }

  /** The texts of a list are those of its items, in order. */
  lemma {:induction false} TextsKeepOrder(vs: seq<FlagValue>, ws: seq<FlagValue>)
    ensures TextsOfAll(vs + ws) == TextsOfAll(vs) + TextsOfAll(ws)
  {
    if vs == [] {
      assert vs + ws == ws;
    } else {
      assert (vs + ws)[1..] == vs[1..] + ws;
      TextsKeepOrder(vs[1..], ws);
    }
  }

  lemma TextsOfAllSnoc(vs: seq<FlagValue>, v: FlagValue)
    ensures TextsOfAll(vs + [v]) == TextsOfAll(vs) + TextsOf(v)
  {
    TextsKeepOrder(vs, [v]);
    assert TextsOfAll([v]) == TextsOf(v) + TextsOfAll([]);
  }

  /** reconstructFlagValue */
  method ReconstructFlagValue(v: FlagValue) returns (result: seq<string>)
    ensures result == TextsOf(v)
    decreases v
  {
    match v {
      case Texts(texts) =>
        return texts;
      case Items(items) =>
        result := [];
        assert items[..0] == [];
        for i := 0 to |items|
          invariant result == TextsOfAll(items[..i])
        {
          var vals := ReconstructFlagValue(items[i]);
          assert items[..i + 1] == items[..i] + [items[i]];
          TextsOfAllSnoc(items[..i], items[i]);
          result := result + vals;
        }
        assert items[..|items|] == items;
      case Scalar(text) =>
        return [text];
    }
  }

  /** One argument, as a flag is written out. */
  function Argument(name: string, text: string): string {
    "--" + name + "=" + text
  }

  function Arguments(name: string, texts: seq<string>): (r: seq<string>)
    ensures |r| == |texts| && forall i | 0 <= i < |r| :: r[i] == Argument(name, texts[i])
  {
    seq(|texts|, i requires 0 <= i < |texts| => Argument(name, texts[i]))
  }

  /** A flag that was set, written out under its first name. */
  function Written(f: Flag): seq<string> {
    if f.names != [] && f.isSet then Arguments(f.names[0], TextsOf(f.value)) else []
  }

  function WrittenAll(flags: seq<Flag>): seq<string> {
    if flags == [] then [] else Written(flags[0]) + WrittenAll(flags[1..])
  }

  predicate AllNamed(flags: seq<Flag>) {
    forall i | 0 <= i < |flags| :: flags[i].names != []
  }

  /** The arguments of all set flags, in order. A flag without a name is an error. */
  function Reconstructed(flags: seq<Flag>): Result<seq<string>> {
    if AllNamed(flags) then Ok(WrittenAll(flags)) else Err(UnnamedFlag)
  }

  lemma {:induction false} WrittenAllSnoc(flags: seq<Flag>, f: Flag)
    ensures WrittenAll(flags + [f]) == WrittenAll(flags) + Written(f)
  {
    if flags == [] {
      assert flags + [f] == [f];
      assert WrittenAll([f]) == Written(f) + WrittenAll([]);
    } else {
      assert (flags + [f])[1..] == flags[1..] + [f];
      WrittenAllSnoc(flags[1..], f);
    }
  }

  lemma AllNamedSnoc(flags: seq<Flag>, f: Flag)
    ensures AllNamed(flags + [f]) <==> AllNamed(flags) && f.names != []
  {
    if AllNamed(flags + [f]) {
      assert (flags + [f])[|flags|] == f;
      assert forall i | 0 <= i < |flags| :: (flags + [f])[i] == flags[i];
    }
  }

  lemma WrittenOneMore(flags: seq<Flag>, i: nat)
    requires i < |flags|
    ensures WrittenAll(flags[..i + 1]) == WrittenAll(flags[..i]) + Written(flags[i])
    ensures AllNamed(flags[..i + 1]) <==> AllNamed(flags[..i]) && flags[i].names != []
  {
    var before, f := flags[..i], flags[i];
    assert flags[..i + 1] == before + [f];
    WrittenAllSnoc(before, f);
    AllNamedSnoc(before, f);
  }

  /** reconstructFlags. It writes out the flags that were set and skips the others, although its
      comment says that defaults are included. */
  method ReconstructFlags(flags: seq<Flag>) returns (r: Result<seq<string>>)
    ensures r == Reconstructed(flags)
  {
    var written: seq<string> := [];
    assert flags[..0] == [];
    for i := 0 to |flags|
      invariant AllNamed(flags[..i]) && written == WrittenAll(flags[..i])
    {
      var f := flags[i];
      WrittenOneMore(flags, i);
      if |f.names| == 0 {
        return Err(UnnamedFlag);
      }
      if !f.isSet {
        continue;
      }
      var vals := ReconstructFlagValue(f.value);
      written := written + Arguments(f.names[0], vals);
    }
    assert flags[..|flags|] == flags;
    return Ok(written);
  }

  // ---------- Reading arguments ----------

  /** strings.Cut at the first "=". */
  function CutAt(s: string, i: nat): Option<(string, string)>
    requires i <= |s|
    decreases |s| - i
  {
    if i == |s| then None
    else if s[i] == '=' then Some((s[..i], s[i + 1..]))
    else CutAt(s, i + 1)
  }

  function Cut(s: string): Option<(string, string)> { CutAt(s, 0) }

  function DropDashes(arg: string): string {
    if |arg| >= 2 && arg[..2] == "--" then arg[2..]
    else if |arg| >= 1 && arg[0] == '-' then arg[1..]
    else arg
  }

  /** The flag an argument names and its text; a flag without "=" reads as true. */
  function Setting(arg: string): (string, string) {
    match Cut(DropDashes(arg))
    case Some(pair) => pair
    case None => (DropDashes(arg), "true")
  }

  predicate PlainName(name: string) {
    name != "" && name[0] != '-' && '=' !in name
  }

  lemma {:induction false} CutFinds(name: string, text: string, i: nat)
    requires '=' !in name && i <= |name|
    ensures CutAt(name + "=" + text, i) == Some((name, text))
    decreases |name| - i
  {
    var s := name + "=" + text;
    if i < |name| {
      assert s[i] == name[i];
      CutFinds(name, text, i + 1);
    } else {
      assert s[..i] == name && s[i + 1..] == text;
    }
  }

  /** Cutting gives back exactly a text's parts around its first "=". */
  lemma {:induction false} CutSplits(s: string, i: nat)
    requires i <= |s| && '=' !in s[..i]
    ensures match CutAt(s, i)
            case Some((before, after)) => s == before + "=" + after && '=' !in before
            case None => '=' !in s
    decreases |s| - i
  {
    if i < |s| && s[i] != '=' {
      assert s[..i + 1] == s[..i] + [s[i]];
      CutSplits(s, i + 1);
    } else if i == |s| {
      assert s[..i] == s;
    }
  }

  lemma CutIs(s: string) returns (before: string, after: string)
    requires Cut(s).Some?
    ensures Cut(s) == Some((before, after)) && s == before + "=" + after && '=' !in before
  {
    CutSplits(s, 0);
    before, after := Cut(s).value.0, Cut(s).value.1;
  }

  /** What is written out is read back: no text can change which flag is set, or its value. */
  lemma ArgumentRoundTrips(name: string, text: string)
    requires PlainName(name)
    ensures Setting(Argument(name, text)) == (name, text)
  {
    assert Argument(name, text)[2..] == name + "=" + text;
    CutFinds(name, text, 0);
  }

  /** An override may also write one dash, and leave out the value of a flag to mean true. */
  lemma OtherForms(name: string, text: string)
    requires PlainName(name)
    ensures Setting("-" + name + "=" + text) == (name, text)
    ensures Setting("--" + name) == (name, "true") && Setting("-" + name) == (name, "true")
  {
    var single, bare, bareSingle := "-" + name + "=" + text, "--" + name, "-" + name;
    assert single[1..] == name + "=" + text && single[1] == name[0];
    assert bare[2..] == name && bareSingle[1..] == name && bareSingle[1] == name[0];
    CutFinds(name, text, 0);
    NothingToCut(name, 0);
  }

  lemma {:induction false} NothingToCut(s: string, i: nat)
    requires '=' !in s && i <= |s|
    ensures CutAt(s, i) == None
    decreases |s| - i
  {
    if i < |s| {
      NothingToCut(s, i + 1);
    }
  }

  /** The text of the last argument that sets a flag. */
  function Last(args: seq<string>, name: string): Option<string> {
    if args == [] then None
    else if Last(args[1..], name).Some? then Last(args[1..], name)
    else if Setting(args[0]).0 == name then Some(Setting(args[0]).1)
    else None
  }

  lemma {:induction false} LastOfAppend(args: seq<string>, more: seq<string>, name: string)
    ensures Last(args + more, name) == if Last(more, name).Some? then Last(more, name) else Last(args, name)
  {
    if args == [] {
      assert args + more == more;
    } else {
      assert (args + more)[1..] == args[1..] + more;
      LastOfAppend(args[1..], more, name);
    }
  }

  /** A set scalar flag is written as one argument; an unset one not at all. */
  predicate ScalarFlag(f: Flag) {
    f.names != [] && f.value.Scalar?
  }

  predicate DistinctNames(flags: seq<Flag>) {
    && (forall i | 0 <= i < |flags| :: flags[i].names != [] && PlainName(flags[i].names[0]))
    && (forall i, j | 0 <= i < j < |flags| :: flags[i].names[0] != flags[j].names[0])
  }

  lemma {:induction false} LastOfArguments(name: string, texts: seq<string>, other: string)
    requires PlainName(name)
    ensures Last(Arguments(name, texts), other)
            == if other == name && texts != [] then Some(texts[|texts| - 1]) else None
  {
    if texts != [] {
      assert Arguments(name, texts)[1..] == Arguments(name, texts[1..]);
      LastOfArguments(name, texts[1..], other);
      ArgumentRoundTrips(name, texts[0]);
    }
  }

  lemma {:induction false} UnnamedIsUnset(flags: seq<Flag>, name: string)
    requires DistinctNames(flags) && forall i | 0 <= i < |flags| :: flags[i].names[0] != name
    ensures Last(WrittenAll(flags), name) == None
  {
    if flags != [] {
      UnnamedIsUnset(flags[1..], name);
      LastOfArguments(flags[0].names[0], TextsOf(flags[0].value), name);
      LastOfAppend(Written(flags[0]), WrittenAll(flags[1..]), name);
    }
  }

  /** Written out and read again, a scalar flag has its own text if it was set, and is left to
      its default if it was not. */
  lemma {:induction false} ReconstructedKeepsFlag(flags: seq<Flag>, k: nat)
    requires DistinctNames(flags) && k < |flags| && ScalarFlag(flags[k])
    ensures Last(WrittenAll(flags), flags[k].names[0])
            == if flags[k].isSet then Some(flags[k].value.text) else None
  {
    var f, name := flags[0], flags[k].names[0];
    if k == 0 {
      UnnamedIsUnset(flags[1..], name);
    } else {
      ReconstructedKeepsFlag(flags[1..], k - 1);
    }
    LastOfArguments(f.names[0], TextsOf(f.value), name);
    LastOfAppend(Written(f), WrittenAll(flags[1..]), name);
  }

  // ---------- Building one configuration ----------

  /** How the command-line library reads the text of a flag, by the flag's type. */
  datatype Readers = Readers(
    readInt: string -> int,
    readDuration: string -> int,
    readFloat: string -> real,
    readBool: string -> bool
  )

  /** The text of a flag: of its last argument, or its default. */
  function TextOf(defaults: string -> string, args: seq<string>, name: string): string {
    match Last(args, name)
    case Some(text) => text
    case None => defaults(name)
  }

  function TextUnder(defaults: string -> string, args: seq<string>): string -> string {
    name => TextOf(defaults, args, name)
  }

  /** The settings a command has, before they are checked against each other. */
  function SettingsOf(r: Readers, text: string -> string): RequestConfig {
    RequestConfig(
      r.readDuration(text("browser.time-between-scrolls")),
      r.readInt(text("browser.min-width")),
      r.readInt(text("browser.min-height")),
      r.readInt(text("browser.max-width")),
      r.readInt(text("browser.max-height")),
      r.readFloat(text("browser.page-scale-factor")),
      r.readFloat(text("browser.max-page-scale-factor")),
      !r.readBool(text("browser.portrait")),
      r.readDuration(text("browser.readiness.timeout")),
      r.readDuration(text("browser.readiness.iteration-interval")),
      r.readInt(text("browser.readiness.wait-for-n-query-cycles")),
      r.readDuration(text("browser.readiness.prior-wait")),
      r.readBool(text("browser.readiness.disable-query-wait")),
      r.readDuration(text("browser.readiness.give-up-on-first-query")),
      r.readDuration(text("browser.readiness.give-up-on-all-queries")),
      r.readBool(text("browser.readiness.disable-network-wait")),
      r.readDuration(text("browser.readiness.network-idle-timeout")),
      r.readBool(text("browser.readiness.disable-dom-hashcode-wait")),
      r.readDuration(text("browser.readiness.dom-hashcode-timeout")),
      r.readBool(text("browser.force-polling-mode"))
    )
  }

  // Which flag each setting is read from, and how.

  /** The viewport and the scale. */
  ghost predicate ViewportRead(r: Readers, text: string -> string, rc: RequestConfig) {
    && rc.minWidth == r.readInt(text("browser.min-width"))
    && rc.minHeight == r.readInt(text("browser.min-height"))
    && rc.maxWidth == r.readInt(text("browser.max-width"))
    && rc.maxHeight == r.readInt(text("browser.max-height"))
    && rc.pageScaleFactor == r.readFloat(text("browser.page-scale-factor"))
    && rc.maxPageScaleFactor == r.readFloat(text("browser.max-page-scale-factor"))
  }

  /** Scrolling, orientation and polling. */
  ghost predicate PageRead(r: Readers, text: string -> string, rc: RequestConfig) {
    && rc.timeBetweenScrolls == r.readDuration(text("browser.time-between-scrolls"))
    && rc.landscape == !r.readBool(text("browser.portrait"))
    && rc.forcePollingMode == r.readBool(text("browser.force-polling-mode"))
  }

  /** The query gate of the readiness loop. */
  ghost predicate QueryRead(r: Readers, text: string -> string, rc: RequestConfig) {
    && rc.readinessWaitForNQueryCycles == r.readInt(text("browser.readiness.wait-for-n-query-cycles"))
    && rc.readinessDisableQueryWait == r.readBool(text("browser.readiness.disable-query-wait"))
    && rc.readinessFirstQueryTimeout == r.readDuration(text("browser.readiness.give-up-on-first-query"))
    && rc.readinessQueriesTimeout == r.readDuration(text("browser.readiness.give-up-on-all-queries"))
  }

  /** Its network and DOM gates. */
  ghost predicate IdleRead(r: Readers, text: string -> string, rc: RequestConfig) {
    && rc.readinessDisableNetworkWait == r.readBool(text("browser.readiness.disable-network-wait"))
    && rc.readinessNetworkIdleTimeout == r.readDuration(text("browser.readiness.network-idle-timeout"))
    && rc.readinessDisableDOMHashCodeWait == r.readBool(text("browser.readiness.disable-dom-hashcode-wait"))
    && rc.readinessDOMHashCodeTimeout == r.readDuration(text("browser.readiness.dom-hashcode-timeout"))
  }

  /** Its waits. */
  ghost predicate WaitsRead(r: Readers, text: string -> string, rc: RequestConfig) {
    && rc.readinessTimeout == r.readDuration(text("browser.readiness.timeout"))
    && rc.readinessIterationInterval == r.readDuration(text("browser.readiness.iteration-interval"))
    && rc.readinessPriorWait == r.readDuration(text("browser.readiness.prior-wait"))
  }

  ghost predicate FieldsRead(r: Readers, text: string -> string, rc: RequestConfig) {
    && ViewportRead(r, text, rc) && PageRead(r, text, rc)
    && QueryRead(r, text, rc) && IdleRead(r, text, rc) && WaitsRead(r, text, rc)
  }

  lemma FieldsReadExactly(r: Readers, text: string -> string, rc: RequestConfig)
    ensures FieldsRead(r, text, rc) <==> rc == SettingsOf(r, text)
  {
  }

  lemma SameViewportRead(r: Readers, text: string -> string, text': string -> string, rc: RequestConfig)
    requires (forall name :: text(name) == text'(name)) && ViewportRead(r, text, rc)
    ensures ViewportRead(r, text', rc)
  {
  }

  lemma SamePageRead(r: Readers, text: string -> string, text': string -> string, rc: RequestConfig)
    requires (forall name :: text(name) == text'(name)) && PageRead(r, text, rc)
    ensures PageRead(r, text', rc)
  {
  }

  lemma SameQueryRead(r: Readers, text: string -> string, text': string -> string, rc: RequestConfig)
    requires (forall name :: text(name) == text'(name)) && QueryRead(r, text, rc)
    ensures QueryRead(r, text', rc)
  {
  }

  lemma SameIdleRead(r: Readers, text: string -> string, text': string -> string, rc: RequestConfig)
    requires (forall name :: text(name) == text'(name)) && IdleRead(r, text, rc)
    ensures IdleRead(r, text', rc)
  {
  }

  lemma SameWaitsRead(r: Readers, text: string -> string, text': string -> string, rc: RequestConfig)
    requires (forall name :: text(name) == text'(name)) && WaitsRead(r, text, rc)
    ensures WaitsRead(r, text', rc)
  {
  }

  /** Only the texts matter. */
  lemma SameTextsReadAlike(r: Readers, text: string -> string, text': string -> string, rc: RequestConfig)
    requires (forall name :: text(name) == text'(name)) && FieldsRead(r, text, rc)
    ensures FieldsRead(r, text', rc)
  {
    SameViewportRead(r, text, text', rc);
    SamePageRead(r, text, text', rc);
    SameQueryRead(r, text, text', rc);
    SameIdleRead(r, text, text', rc);
    SameWaitsRead(r, text, text', rc);
  }

  /** The checks between minima and maxima. */
  predicate InRange(rc: RequestConfig) {
    && (rc.maxWidth >= 0 ==> rc.minWidth <= rc.maxWidth)
    && (rc.maxHeight >= 0 ==> rc.minHeight <= rc.maxHeight)
    && rc.pageScaleFactor <= rc.maxPageScaleFactor
  }

  /** requestConfigFromCommand: the settings, unless a minimum exceeds its maximum. */
  function Checked(rc: RequestConfig): (r: Result<RequestConfig>)
    ensures if InRange(rc) then r == Ok(rc) else r.Err?
  {
    if rc.maxWidth >= 0 && rc.minWidth > rc.maxWidth then Err(WidthRange)
    else if rc.maxHeight >= 0 && rc.minHeight > rc.maxHeight then Err(HeightRange)
    else if rc.pageScaleFactor > rc.maxPageScaleFactor then
      Err(ScaleRange)
    else Ok(rc)
  }

  /** What is fixed while overrides are built: the flags of the command with their values, their
      defaults, how texts are read, and which flag texts pass the flag's own validator. */
  datatype Command = Command(
    flags: seq<Flag>,
    defaults: string -> string,
    readers: Readers,
    accepts: (string, string) -> bool,
    compiles: string -> bool
  )

  /** The texts the base command itself uses. Of a flag that holds a list, from which no setting is
      read, this is the last one. */
  function BaseText(c: Command): string -> string {
    name => BaseTextIn(c.flags, c.defaults, name)
  }

  function BaseTextIn(flags: seq<Flag>, defaults: string -> string, name: string): string {
    if flags == [] then defaults(name)
    else if Written(flags[0]) != [] && flags[0].names[0] == name then
      TextsOf(flags[0].value)[|TextsOf(flags[0].value)| - 1]
    else BaseTextIn(flags[1..], defaults, name)
  }

  predicate Accepted(c: Command, arg: string) {
    c.accepts(Setting(arg).0, Setting(arg).1)
  }

  predicate AllAccepted(c: Command, args: seq<string>) {
    forall arg | arg in args :: Accepted(c, arg)
  }

  /** Settings whose flags were all accepted are then checked against each other. */
  function Validated(accepted: bool, settings: RequestConfig): (r: Result<RequestConfig>)
    ensures forall rc :: r == Ok(rc) <==> accepted && InRange(settings) && rc == settings
  {
    if !accepted then Err(BadFlag) else Checked(settings)
  }

  /** buildConfigWithOverrides */
  function BuildConfig(c: Command, baseFlags: seq<string>, overrideFlags: seq<string>): Result<RequestConfig> {
    var args := baseFlags + overrideFlags;
    Validated(AllAccepted(c, args), SettingsOf(c.readers, TextUnder(c.defaults, args)))
  }

  lemma {:induction false} BaseTextUnnamed(flags: seq<Flag>, defaults: string -> string, name: string)
    requires DistinctNames(flags) && forall i | 0 <= i < |flags| :: flags[i].names[0] != name
    ensures BaseTextIn(flags, defaults, name) == defaults(name)
  {
    if flags != [] {
      BaseTextUnnamed(flags[1..], defaults, name);
    }
  }

  /** The base text of a scalar flag is its own if it was set, and otherwise the default. */
  lemma {:induction false} BaseTextOfFlag(flags: seq<Flag>, defaults: string -> string, k: nat)
    requires DistinctNames(flags) && k < |flags| && ScalarFlag(flags[k])
    ensures BaseTextIn(flags, defaults, flags[k].names[0])
            == if flags[k].isSet then flags[k].value.text else defaults(flags[k].names[0])
  {
    if k > 0 {
      BaseTextOfFlag(flags[1..], defaults, k - 1);
    } else if !flags[0].isSet {
      BaseTextUnnamed(flags[1..], defaults, flags[0].names[0]);
    }
  }

  lemma {:induction false} BaseTextIsWritten(flags: seq<Flag>, defaults: string -> string, name: string)
    requires DistinctNames(flags)
    ensures BaseTextIn(flags, defaults, name) == TextOf(defaults, WrittenAll(flags), name)
  {
    if flags != [] {
      var f := flags[0];
      LastOfArguments(f.names[0], TextsOf(f.value), name);
      LastOfAppend(Written(f), WrittenAll(flags[1..]), name);
      if f.names[0] == name {
        UnnamedIsUnset(flags[1..], name);
        BaseTextUnnamed(flags[1..], defaults, name);
      } else {
        BaseTextIsWritten(flags[1..], defaults, name);
      }
    }
  }

  /** The text of every flag under an override: of the last of its own flags of that name, or that
      of the base command. */
  function OwnOrBase(c: Command, own: seq<string>): string -> string {
    name => if Last(own, name).Some? then Last(own, name).value else BaseText(c)(name)
  }

  /** Reading the written-out base flags and then the override's own is the base, updated by the
      override: a flag the override does not name keeps its base text, whether that was set or
      a default, and of a flag it names its last value counts. */
  lemma MergedTextIsBaseUpdated(c: Command, own: seq<string>, name: string)
    requires DistinctNames(c.flags)
    ensures TextOf(c.defaults, WrittenAll(c.flags) + own, name)
            == if Last(own, name).Some? then Last(own, name).value else BaseText(c)(name)
  {
    LastOfAppend(WrittenAll(c.flags), own, name);
    BaseTextIsWritten(c.flags, c.defaults, name);
  }

  /** The settings of an override are read, field by field, from its own flags or the base. */
  lemma OverrideIsBaseUpdated(c: Command, own: seq<string>, rc: RequestConfig)
    requires DistinctNames(c.flags)
    ensures rc == SettingsOf(c.readers, TextUnder(c.defaults, WrittenAll(c.flags) + own)) <==>
              FieldsRead(c.readers, OwnOrBase(c, own), rc)
  {
    var merged := TextUnder(c.defaults, WrittenAll(c.flags) + own);
    forall name ensures merged(name) == OwnOrBase(c, own)(name) {
      MergedTextIsBaseUpdated(c, own, name);
    }
    FieldsReadExactly(c.readers, merged, rc);
    if FieldsRead(c.readers, merged, rc) {
      SameTextsReadAlike(c.readers, merged, OwnOrBase(c, own), rc);
    }
    if FieldsRead(c.readers, OwnOrBase(c, own), rc) {
      SameTextsReadAlike(c.readers, OwnOrBase(c, own), merged, rc);
    }
  }

  // A setting whose flag the override does not name is that of the base command, so that every flag
  // changes one setting only.

  lemma UnnamedViewportSettingsKeepBase(c: Command, own: seq<string>, base: RequestConfig, rc: RequestConfig)
    requires ViewportRead(c.readers, BaseText(c), base) && ViewportRead(c.readers, OwnOrBase(c, own), rc)
    ensures Last(own, "browser.min-width").None? ==> rc.minWidth == base.minWidth
    ensures Last(own, "browser.min-height").None? ==> rc.minHeight == base.minHeight
    ensures Last(own, "browser.max-width").None? ==> rc.maxWidth == base.maxWidth
    ensures Last(own, "browser.max-height").None? ==> rc.maxHeight == base.maxHeight
    ensures Last(own, "browser.page-scale-factor").None? ==> rc.pageScaleFactor == base.pageScaleFactor
    ensures Last(own, "browser.max-page-scale-factor").None? ==> rc.maxPageScaleFactor == base.maxPageScaleFactor
  {
  }

  lemma UnnamedPageSettingsKeepBase(c: Command, own: seq<string>, base: RequestConfig, rc: RequestConfig)
    requires PageRead(c.readers, BaseText(c), base) && PageRead(c.readers, OwnOrBase(c, own), rc)
    ensures Last(own, "browser.time-between-scrolls").None? ==> rc.timeBetweenScrolls == base.timeBetweenScrolls
    ensures Last(own, "browser.portrait").None? ==> rc.landscape == base.landscape
    ensures Last(own, "browser.force-polling-mode").None? ==> rc.forcePollingMode == base.forcePollingMode
  {
  }

  lemma UnnamedQuerySettingsKeepBase(c: Command, own: seq<string>, base: RequestConfig, rc: RequestConfig)
    requires QueryRead(c.readers, BaseText(c), base) && QueryRead(c.readers, OwnOrBase(c, own), rc)
    ensures Last(own, "browser.readiness.wait-for-n-query-cycles").None? ==> rc.readinessWaitForNQueryCycles == base.readinessWaitForNQueryCycles
    ensures Last(own, "browser.readiness.disable-query-wait").None? ==> rc.readinessDisableQueryWait == base.readinessDisableQueryWait
    ensures Last(own, "browser.readiness.give-up-on-first-query").None? ==> rc.readinessFirstQueryTimeout == base.readinessFirstQueryTimeout
    ensures Last(own, "browser.readiness.give-up-on-all-queries").None? ==> rc.readinessQueriesTimeout == base.readinessQueriesTimeout
  {
  }

  lemma UnnamedIdleSettingsKeepBase(c: Command, own: seq<string>, base: RequestConfig, rc: RequestConfig)
    requires IdleRead(c.readers, BaseText(c), base) && IdleRead(c.readers, OwnOrBase(c, own), rc)
    ensures Last(own, "browser.readiness.disable-network-wait").None? ==> rc.readinessDisableNetworkWait == base.readinessDisableNetworkWait
    ensures Last(own, "browser.readiness.network-idle-timeout").None? ==> rc.readinessNetworkIdleTimeout == base.readinessNetworkIdleTimeout
    ensures Last(own, "browser.readiness.disable-dom-hashcode-wait").None? ==> rc.readinessDisableDOMHashCodeWait == base.readinessDisableDOMHashCodeWait
    ensures Last(own, "browser.readiness.dom-hashcode-timeout").None? ==> rc.readinessDOMHashCodeTimeout == base.readinessDOMHashCodeTimeout
  {
  }

  lemma UnnamedWaitsSettingsKeepBase(c: Command, own: seq<string>, base: RequestConfig, rc: RequestConfig)
    requires WaitsRead(c.readers, BaseText(c), base) && WaitsRead(c.readers, OwnOrBase(c, own), rc)
    ensures Last(own, "browser.readiness.timeout").None? ==> rc.readinessTimeout == base.readinessTimeout
    ensures Last(own, "browser.readiness.iteration-interval").None? ==> rc.readinessIterationInterval == base.readinessIterationInterval
    ensures Last(own, "browser.readiness.prior-wait").None? ==> rc.readinessPriorWait == base.readinessPriorWait
  {
  }

  /** What the validators of the range flags promise about the texts they accept, and that the
      defaults pass them. */
  ghost predicate ValidatorsHold(c: Command) {
    && (forall t | c.accepts("browser.min-width", t) :: c.readers.readInt(t) >= 100)
    && (forall t | c.accepts("browser.min-height", t) :: c.readers.readInt(t) >= 100)
    && (forall t | c.accepts("browser.max-width", t) :: c.readers.readInt(t) < 0 || c.readers.readInt(t) >= 100)
    && (forall t | c.accepts("browser.max-height", t) :: c.readers.readInt(t) < 0 || c.readers.readInt(t) >= 100)
    && (forall t | c.accepts("browser.page-scale-factor", t) :: c.readers.readFloat(t) > 0.0)
    && (forall name :: c.accepts(name, c.defaults(name)))
  }

  lemma {:induction false} LastIsSetting(args: seq<string>, name: string)
    requires Last(args, name).Some?
    ensures exists i :: 0 <= i < |args| && Setting(args[i]) == (name, Last(args, name).value)
  {
    if Last(args[1..], name).Some? {
      LastIsSetting(args[1..], name);
      var i :| 0 <= i < |args[1..]| && Setting(args[1..][i]) == (name, Last(args, name).value);
      assert args[i + 1] == args[1..][i];
    }
  }

  lemma TextIsAccepted(c: Command, args: seq<string>, name: string)
    requires AllAccepted(c, args) && c.accepts(name, c.defaults(name))
    ensures c.accepts(name, TextOf(c.defaults, args, name))
  {
    if Last(args, name).Some? {
      LastIsSetting(args, name);
      assert forall i | 0 <= i < |args| :: Accepted(c, args[i]);
    }
  }

  lemma AcceptedSettingsAreValid(c: Command, text: string -> string, rc: RequestConfig)
    requires ValidatorsHold(c) && forall name :: c.accepts(name, text(name))
    requires ViewportRead(c.readers, text, rc) && InRange(rc)
    ensures ValidRequestConfig(rc)
  {
  }

  /** Every configuration that is built is valid in the sense that rendering options preserve. */
  lemma BuiltConfigIsValid(c: Command, base: seq<string>, own: seq<string>)
    requires ValidatorsHold(c) && BuildConfig(c, base, own).Ok?
    ensures ValidRequestConfig(BuildConfig(c, base, own).value)
  {
    var text, rc := TextUnder(c.defaults, base + own), BuildConfig(c, base, own).value;
    forall name ensures c.accepts(name, text(name)) {
      TextIsAccepted(c, base + own, name);
    }
    FieldsReadExactly(c.readers, text, rc);
    AcceptedSettingsAreValid(c, text, rc);
  }

  // ---------- Building all of them ----------

  /** A pattern and its settings, unless the pattern or the settings are in error. */
  function Assemble(c: Command, pattern: string, config: Result<RequestConfig>): (r: Result<Override>)
    ensures forall o :: r == Ok(o) <==>
              o.pattern == pattern != "" && c.compiles(pattern) && config == Ok(o.config)
  {
    if pattern == "" then Err(EmptyPattern)
    else if !c.compiles(pattern) then Err(BadPattern)
    else
      match config
      case Err(why) => Err(why)
      case Ok(rc) => Ok(Override(pattern, rc))
  }

  /** One override: "pattern=--flag=value --flag2=value2". */
  function BuildOverride(c: Command, baseFlags: seq<string>, override: string): Result<Override> {
    match Cut(override)
    case None => Err(NoSeparator)
    case Some((before, flagsStr)) =>
      Assemble(c, TrimSpace(before), BuildConfig(c, baseFlags, OverrideFlags.Parse(flagsStr)))
  }

  /** The settings that an override's own flags mean, if every flag and every range is accepted. */
  ghost predicate MergedSettings(c: Command, own: seq<string>, rc: RequestConfig) {
    && AllAccepted(c, WrittenAll(c.flags)) && AllAccepted(c, own)
    && FieldsRead(c.readers, OwnOrBase(c, own), rc)
    && (rc.maxWidth < 0 || rc.minWidth <= rc.maxWidth)
    && (rc.maxHeight < 0 || rc.minHeight <= rc.maxHeight)
    && rc.pageScaleFactor <= rc.maxPageScaleFactor
  }

  /** What an override is meant to be: the text is a pattern, the first "=" and flags; the pattern
      trimmed is not empty and compiles; the settings are those of the base command, updated by
      the flags in order, and pass every check. */
  ghost predicate IsMergedOverride(c: Command, text: string, o: Override) {
    exists before, flagsStr :: MergedFrom(c, text, before, flagsStr, o)
  }

  ghost predicate MergedFrom(c: Command, text: string, before: string, flagsStr: string, o: Override) {
    && text == before + "=" + flagsStr && '=' !in before
    && o.pattern == TrimSpace(before) != "" && c.compiles(o.pattern)
    && MergedSettings(c, OverrideFlags.Parse(flagsStr), o.config)
  }

  lemma AllAcceptedAppend(c: Command, args: seq<string>, more: seq<string>)
    ensures AllAccepted(c, args + more) <==> AllAccepted(c, args) && AllAccepted(c, more)
  {
    assert forall arg :: arg in args + more <==> arg in args || arg in more;
  }

  lemma BuildConfigIs(c: Command, own: seq<string>, rc: RequestConfig)
    requires DistinctNames(c.flags)
    ensures BuildConfig(c, WrittenAll(c.flags), own) == Ok(rc) <==> MergedSettings(c, own, rc)
  {
    AllAcceptedAppend(c, WrittenAll(c.flags), own);
    OverrideIsBaseUpdated(c, own, rc);
  }

  lemma BuildParts(c: Command, text: string, before: string, flagsStr: string, o: Override)
    requires DistinctNames(c.flags) && Cut(text) == Some((before, flagsStr))
    ensures BuildOverride(c, WrittenAll(c.flags), text) == Ok(o) <==>
              && o.pattern == TrimSpace(before) != "" && c.compiles(o.pattern)
              && MergedSettings(c, OverrideFlags.Parse(flagsStr), o.config)
  {
    BuildConfigIs(c, OverrideFlags.Parse(flagsStr), o.config);
  }

  lemma BuiltIsMerged(c: Command, text: string, o: Override)
    requires DistinctNames(c.flags) && BuildOverride(c, WrittenAll(c.flags), text) == Ok(o)
    ensures IsMergedOverride(c, text, o)
  {
    var before, flagsStr := CutIs(text);
    BuildParts(c, text, before, flagsStr, o);
    assert MergedFrom(c, text, before, flagsStr, o);
  }

  lemma MergedIsBuilt(c: Command, text: string, o: Override)
    requires DistinctNames(c.flags) && IsMergedOverride(c, text, o)
    ensures BuildOverride(c, WrittenAll(c.flags), text) == Ok(o)
  {
    var before, flagsStr :| MergedFrom(c, text, before, flagsStr, o);
    CutFinds(before, flagsStr, 0);
    BuildParts(c, text, before, flagsStr, o);
  }

  /** Override merging, end to end: an override is built exactly when its text means one, and the
      result is what it means. */
  lemma OverrideIsMergedExactly(c: Command, text: string, o: Override)
    requires DistinctNames(c.flags)
    ensures BuildOverride(c, WrittenAll(c.flags), text) == Ok(o) <==> IsMergedOverride(c, text, o)
  {
    if BuildOverride(c, WrittenAll(c.flags), text) == Ok(o) {
      BuiltIsMerged(c, text, o);
    }
    if IsMergedOverride(c, text, o) {
      MergedIsBuilt(c, text, o);
    }
  }

  /** An override without "=" has its own error. */
  lemma NoSeparatorExactly(c: Command, base: seq<string>, text: string)
    ensures BuildOverride(c, base, text) == Err(NoSeparator) <==> '=' !in text
  {
    CutSplits(text, 0);
    if Cut(text).Some? {
      var before, flagsStr := CutIs(text);
      var config := BuildConfig(c, base, OverrideFlags.Parse(flagsStr));
      BuildConfigHasNoSeparatorError(c, base, OverrideFlags.Parse(flagsStr));
      assert BuildOverride(c, base, text) == Assemble(c, TrimSpace(before), config);
      if Assemble(c, TrimSpace(before), config).Err? {
        AssembleError(c, TrimSpace(before), config, Assemble(c, TrimSpace(before), config).why);
      }
    }
  }

  lemma BuildConfigHasNoSeparatorError(c: Command, base: seq<string>, own: seq<string>)
    ensures BuildConfig(c, base, own) != Err(NoSeparator)
  {
  }

  /** Any other error names what is wrong with the parts of the override. */
  lemma OverrideErrorIs(c: Command, text: string, why: Error)
    returns (before: string, flagsStr: string, settings: RequestConfig)
    requires DistinctNames(c.flags) && '=' in text && BuildOverride(c, WrittenAll(c.flags), text) == Err(why)
    ensures text == before + "=" + flagsStr && '=' !in before
    ensures FieldsRead(c.readers, OwnOrBase(c, OverrideFlags.Parse(flagsStr)), settings)
    ensures || (why == EmptyPattern && TrimSpace(before) == "")
            || (why == BadPattern && TrimSpace(before) != "" && !c.compiles(TrimSpace(before)))
            || ConfigError(c, OverrideFlags.Parse(flagsStr), settings, why)
  {
    CutSplits(text, 0);
    before, flagsStr := CutIs(text);
    var own := OverrideFlags.Parse(flagsStr);
    settings := ConfigErrorIs(c, own);
    AssembleError(c, TrimSpace(before), BuildConfig(c, WrittenAll(c.flags), own), why);
  }

  /** What is wrong with the flags or the settings of an override. */
  ghost predicate ConfigError(c: Command, own: seq<string>, settings: RequestConfig, why: Error) {
    match why
    case BadFlag => !AllAccepted(c, WrittenAll(c.flags)) || !AllAccepted(c, own)
    case WidthRange => 0 <= settings.maxWidth < settings.minWidth
    case HeightRange => 0 <= settings.maxHeight < settings.minHeight
    case ScaleRange => settings.pageScaleFactor > settings.maxPageScaleFactor
    case _ => false
  }

  lemma ConfigErrorIs(c: Command, own: seq<string>) returns (settings: RequestConfig)
    requires DistinctNames(c.flags)
    ensures FieldsRead(c.readers, OwnOrBase(c, own), settings)
    ensures var r := BuildConfig(c, WrittenAll(c.flags), own);
            r.Err? ==> ConfigError(c, own, settings, r.why)
  {
    var args := WrittenAll(c.flags) + own;
    settings := SettingsOf(c.readers, TextUnder(c.defaults, args));
    OverrideIsBaseUpdated(c, own, settings);
    AllAcceptedAppend(c, WrittenAll(c.flags), own);
    if Validated(AllAccepted(c, args), settings).Err? {
      ValidatedError(AllAccepted(c, args), settings);
    }
  }

  lemma AssembleError(c: Command, pattern: string, config: Result<RequestConfig>, why: Error)
    requires Assemble(c, pattern, config) == Err(why)
    ensures || (why == EmptyPattern && pattern == "")
            || (why == BadPattern && pattern != "" && !c.compiles(pattern))
            || config == Err(why)
  {
  }

  lemma ValidatedError(accepted: bool, settings: RequestConfig)
    requires Validated(accepted, settings).Err?
    ensures match Validated(accepted, settings).why
            case BadFlag => !accepted
            case WidthRange => 0 <= settings.maxWidth < settings.minWidth
            case HeightRange => 0 <= settings.maxHeight < settings.minHeight
            case ScaleRange => settings.pageScaleFactor > settings.maxPageScaleFactor
            case _ => false
  {
  }

  /** With the validators of the flags, its settings are valid in the sense that options preserve. */
  lemma MergedOverrideIsValid(c: Command, text: string, o: Override)
    requires DistinctNames(c.flags) && ValidatorsHold(c) && IsMergedOverride(c, text, o)
    ensures ValidRequestConfig(o.config)
  {
    var before, flagsStr :| MergedFrom(c, text, before, flagsStr, o);
    var own := OverrideFlags.Parse(flagsStr);
    BuildConfigIs(c, own, o.config);
    BuiltConfigIsValid(c, WrittenAll(c.flags), own);
  }

  /** The body of the loop over the overrides. */
  method BuildOne(c: Command, baseFlags: seq<string>, text: string) returns (r: Result<Override>)
    ensures r == Builder(c, baseFlags)(text)
  {
    var override := Cut(text);
    if override.None? {
      return Err(NoSeparator);
    }
    var pattern := TrimSpace(override.value.0);
    if pattern == "" {
      return Err(EmptyPattern);
    }
    if !c.compiles(pattern) {
      return Err(BadPattern);
    }
    var overrideFlags := OverrideFlags.ParseOverrideFlags(override.value.1);
    var config := BuildConfig(c, baseFlags, overrideFlags);
    if config.Err? {
      return Err(config.why);
    }
    return Ok(Override(pattern, config.value));
  }

  function Builder(c: Command, baseFlags: seq<string>): string -> Result<Override> {
    override => BuildOverride(c, baseFlags, override)
  }

  ghost predicate BuiltAll(build: string -> Result<Override>, overrides: seq<string>, all: seq<Override>) {
    |all| == |overrides| && forall i | 0 <= i < |all| :: build(overrides[i]) == Ok(all[i])
  }

  /** The error is that of the first override that cannot be built. */
  ghost predicate FirstError(build: string -> Result<Override>, overrides: seq<string>, why: Error) {
    exists i, built ::
      0 <= i < |overrides| && build(overrides[i]) == Err(why) && BuiltAll(build, overrides[..i], built)
  }

  lemma BuiltAllSnoc(build: string -> Result<Override>, overrides: seq<string>, i: nat, all: seq<Override>, o: Override)
    requires i < |overrides| && BuiltAll(build, overrides[..i], all) && build(overrides[i]) == Ok(o)
    ensures BuiltAll(build, overrides[..i + 1], all + [o])
  {
  }

  /** Every override means the result at its place. */
  ghost predicate AllMerged(c: Command, overrides: seq<string>, all: seq<Override>) {
    |all| == |overrides| && forall i | 0 <= i < |all| :: IsMergedOverride(c, overrides[i], all[i])
  }

  lemma BuiltAllIsMerged(c: Command, overrides: seq<string>, all: seq<Override>)
    requires DistinctNames(c.flags) && BuiltAll(Builder(c, WrittenAll(c.flags)), overrides, all)
    ensures AllMerged(c, overrides, all)
  {
    forall i | 0 <= i < |all| ensures IsMergedOverride(c, overrides[i], all[i]) {
      OverrideIsMergedExactly(c, overrides[i], all[i]);
    }
  }

  lemma FirstErrorIsUnmerged(c: Command, overrides: seq<string>, why: Error, all: seq<Override>)
    requires DistinctNames(c.flags) && FirstError(Builder(c, WrittenAll(c.flags)), overrides, why)
    ensures !AllMerged(c, overrides, all)
  {
    var i, built :| 0 <= i < |overrides| && Builder(c, WrittenAll(c.flags))(overrides[i]) == Err(why)
      && BuiltAll(Builder(c, WrittenAll(c.flags)), overrides[..i], built);
    if AllMerged(c, overrides, all) {
      OverrideIsMergedExactly(c, overrides[i], all[i]);
    }
  }

  /** buildRequestConfigOverrides. With the flags of the command as they should be, it succeeds
      exactly when every override means a configuration, with those configurations in order. It
      fails with the error of the first override that cannot be built, or of an unnamed flag. */
  method BuildRequestConfigOverrides(c: Command, overrides: seq<string>) returns (r: Result<seq<Override>>)
    ensures DistinctNames(c.flags) ==>
              forall all {:trigger AllMerged(c, overrides, all)} :: r == Ok(all) <==> AllMerged(c, overrides, all)
    ensures r.Err? ==> !AllNamed(c.flags) || FirstError(Builder(c, WrittenAll(c.flags)), overrides, r.why)
    ensures overrides != [] && !AllNamed(c.flags) ==> r.Err?
  {
    if |overrides| == 0 {
      return Ok([]);
    }
    var baseFlags := ReconstructFlags(c.flags);
    if baseFlags.Err? {
      return Err(baseFlags.why);
    }
    r := CollectOverrides(c, baseFlags.value, overrides);
    if DistinctNames(c.flags) {
      CollectedExactly(c, overrides, r);
    }
  }

  lemma CollectedExactly(c: Command, overrides: seq<string>, r: Result<seq<Override>>)
    requires DistinctNames(c.flags)
    requires r.Ok? ==> BuiltAll(Builder(c, WrittenAll(c.flags)), overrides, r.value)
    requires r.Err? ==> FirstError(Builder(c, WrittenAll(c.flags)), overrides, r.why)
    ensures forall all {:trigger AllMerged(c, overrides, all)} :: r == Ok(all) <==> AllMerged(c, overrides, all)
  {
    forall all ensures r == Ok(all) <==> AllMerged(c, overrides, all) {
      if r.Ok? {
        BuiltAllIsMerged(c, overrides, r.value);
        if AllMerged(c, overrides, all) {
          MergedUnique(c, overrides, all, r.value);
        }
      } else {
        FirstErrorIsUnmerged(c, overrides, r.why, all);
      }
    }
  }

  lemma MergedUnique(c: Command, overrides: seq<string>, all: seq<Override>, all': seq<Override>)
    requires DistinctNames(c.flags) && AllMerged(c, overrides, all) && AllMerged(c, overrides, all')
    ensures all == all'
  {
    forall i | 0 <= i < |all| ensures all[i] == all'[i] {
      OverrideIsMergedExactly(c, overrides[i], all[i]);
      OverrideIsMergedExactly(c, overrides[i], all'[i]);
    }
  }

  /** The loop over the overrides. */
  method CollectOverrides(c: Command, baseFlags: seq<string>, overrides: seq<string>) returns (r: Result<seq<Override>>)
    ensures r.Ok? ==> BuiltAll(Builder(c, baseFlags), overrides, r.value)
    ensures r.Err? ==> FirstError(Builder(c, baseFlags), overrides, r.why)
  {
    var result: seq<Override> := [];
    for i := 0 to |overrides|
      invariant BuiltAll(Builder(c, baseFlags), overrides[..i], result)
    {
      var built := BuildOne(c, baseFlags, overrides[i]);
      if built.Err? {
        return Err(built.why);
      }
      BuiltAllSnoc(Builder(c, baseFlags), overrides, i, result, built.value);
      result := result + [built.value];
    }
    assert overrides[..|overrides|] == overrides;
    return Ok(result);
  }
}
