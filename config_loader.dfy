/** `load_config` of src/config/config_loader.py: decoding the camera's INI
    settings into the nine options the rest of the program reads.

    The parsed INI file is a finite map from `(section, key)` to the stored
    text. Every option except the two capture flags has a fallback text that
    stands in when the key is absent; the text (stored or fallback) is then
    converted with `int()`, the capture flags with `getboolean`, and the dot
    colour by stripping parentheses, splitting on commas and converting each
    field with `int()`. A conversion that fails is an error of the whole load,
    never a silent default. */
module ConfigLoader {
  import opened Wrappers
  import opened PyStr

  /** The parsed INI file: `(section, key)` to the stored value. */
  type Store = map<(string, string), string>

  /** The `ValueError`s the loader can raise, with the offending text. */
  datatype ConfigError =
    | InvalidInt(text: string)    // int() of a text that is not a base-10 literal
    | InvalidBool(text: string)   // getboolean of a text that is not a boolean word

  /** The decoded options, one field per key of the returned dictionary. */
  datatype Config = Config(
    cameraPort: int,
    frameResizePercent: int,
    saveIntervalSeconds: int,
    frameSkipCount: int,
    captureImageEnabled: Option<bool>,
    captureVideoEnabled: Option<bool>,
    motionAreaThreshold: int,
    dotRadius: int,
    dotColour: seq<int>)

  /** The values the returned dictionary holds. */
  datatype Value = IntValue(i: int) | FlagValue(flag: Option<bool>) | TupleValue(items: seq<int>)

  const Parens: set<char> := {'(', ')'}

  /** The configuration an empty (or missing) INI file yields. */
  const Defaults := Config(0, 50, 10, 1, None, None, 500, 5, [0, 0, 255])

  /** The keys of the dictionary `load_config` returns. */
  const DictKeys: set<string> := {
    "camera_port", "frame_resize_percent", "save_interval_seconds", "frame_skip_count",
    "capture_image_enabled", "capture_video_enabled",
    "motion_area_threshold", "dot_radius", "dot_colour"
  }

  /** `config.get(section, key, fallback=fallback)`. */
  function Get(store: Store, section: string, key: string, fallback: string): string {
    if (section, key) in store then store[(section, key)] else fallback
  }

  /** A key looked up without a fallback. */
  function Lookup(store: Store, section: string, key: string): Option<string> {
    if (section, key) in store then Some(store[(section, key)]) else None
  }

  /** `int(text)`, raising on a text that is not a base-10 literal. */
  function IntOf(text: string): Result<int, ConfigError> {
    match ParseInt(text)
    case Some(n) => Success(n)
    case None => Failure(InvalidInt(text))
  }

  /** configparser's boolean words, compared after lower-casing. Lower-casing
      only ASCII letters is enough here: no other character lower-cases into
      one of these words. */
  const TrueWords: set<string> := {"1", "yes", "true", "on"}
  const FalseWords: set<string> := {"0", "no", "false", "off"}

  /** configparser's text-to-boolean conversion; `None` where it raises. */
  function ParseBool(text: string): (r: Option<bool>)
    ensures r == Some(true) <==> Lower(text) in TrueWords
    ensures r == Some(false) <==> Lower(text) in FalseWords
    ensures r.None? <==> Lower(text) !in TrueWords + FalseWords
  {
    var word := Lower(text);
    if word in TrueWords then Some(true)
    else if word in FalseWords then Some(false)
    else None
  }

  /** `str(b)`, how Python writes a boolean back into an INI file. */
  function BoolText(b: bool): string {
    if b then "True" else "False"
  }

  /** `getboolean` of a looked-up key: no fallback is passed, so an absent
      key gives `None` rather than a default boolean. */
  function FlagOf(text: Option<string>): (r: Result<Option<bool>, ConfigError>)
    ensures text.None? ==> r == Success(None)
    ensures text.Some? && r.Success? ==> r.value.Some? && r.value == ParseBool(text.value)
    ensures r.Failure? <==> text.Some? && ParseBool(text.value).None?
    ensures r.Failure? ==> r.error == InvalidBool(text.value)
  {
    match text
    case None => Success(None)
    case Some(t) =>
      match ParseBool(t)
      case Some(b) => Success(Some(b))
      case None => Failure(InvalidBool(t))
  }

  /** `map(int, fields)` consumed into a tuple: every field converted in order;
      the first field that is not an integer is the error. */
  function ParseFields(fields: seq<string>): (r: Result<seq<int>, string>)
    ensures r.Success? <==> forall k :: 0 <= k < |fields| ==> ParseInt(fields[k]).Some?
    ensures r.Success? ==> |r.value| == |fields|
    ensures r.Success? ==> forall k :: 0 <= k < |fields| ==> ParseInt(fields[k]) == Some(r.value[k])
    decreases |fields|
  {
    if |fields| == 0 then Success([])
    else
      match ParseInt(fields[0])
      case None => Failure(fields[0])
      case Some(n) =>
        match ParseFields(fields[1..])
        case Failure(bad) => Failure(bad)
        case Success(rest) => Success([n] + rest)
  }

  /** `tuple(map(int, text.strip('()').split(',')))`: one component per
      comma-separated field, whatever their number. */
  function ParseColour(text: string): Result<seq<int>, string> {
    ParseFields(Split(Strip(text, Parens), ','))
  }

  /** The colour has one component per comma of the stripped text, plus one;
      its length is not checked against three. */
  lemma ColourLength(text: string)
    ensures ParseColour(text).Success? ==>
              |ParseColour(text).value| == multiset(Strip(text, Parens))[','] + 1
  {
  }

  /** The error is the first field that is not an integer. */
  lemma {:induction false} ParseFieldsFirstError(fields: seq<string>) returns (k: nat)
    requires ParseFields(fields).Failure?
    ensures k < |fields| && ParseFields(fields).error == fields[k] && ParseInt(fields[k]).None?
    ensures forall j :: 0 <= j < k ==> ParseInt(fields[j]).Some?
    decreases |fields|
  {
    if ParseInt(fields[0]).None? {
      k := 0;
    } else {
      var k' := ParseFieldsFirstError(fields[1..]);
      k := k' + 1;
      forall j | 0 <= j < k ensures ParseInt(fields[j]).Some? {
        if j > 0 { assert fields[j] == fields[1..][j - 1]; }
      }
    }
  }

  /** The colour conversion, raising `int()`'s error for the first bad field. */
  function ColourOf(text: string): Result<seq<int>, ConfigError> {
    match ParseColour(text)
    case Success(c) => Success(c)
    case Failure(field) => Failure(InvalidInt(field))
  }

  /** The text each option is converted from: the stored value, or the
      fallback for an absent key; the capture flags have no fallback. */
  datatype Texts = Texts(
    cameraPort: string,
    frameResizePercent: string,
    saveIntervalSeconds: string,
    frameSkip: string,
    captureImage: Option<string>,
    captureVideo: Option<string>,
    motionAreaThreshold: string,
    dotRadius: string,
    dotColour: string)

  /** The `config.get` calls of lines 8-17 with their fallbacks. */
  function ReadTexts(store: Store): Texts {
    Texts(
      Get(store, "DEFAULT", "CameraPort", "0"),
      Get(store, "DEFAULT", "FrameResizePercent", "50"),
      Get(store, "DEFAULT", "SaveIntervalSeconds", "10"),
      Get(store, "DEFAULT", "FrameSkip", "1"),
      Lookup(store, "DEFAULT", "CaptureImage"),
      Lookup(store, "DEFAULT", "CaptureVideo"),
      Get(store, "MOTION", "MotionAreaThreshold", "500"),
      Get(store, "MOTION", "DotRadius", "5"),
      Get(store, "MOTION", "DotColour", "(0, 0, 255)"))
  }

  /** The conversions of lines 8-17 in source order, the first failing one
      aborting the load. */
  function DecodeTexts(t: Texts): Result<Config, ConfigError> {
    var cameraPort :- IntOf(t.cameraPort);
    var frameResizePercent :- IntOf(t.frameResizePercent);
    var saveIntervalSeconds :- IntOf(t.saveIntervalSeconds);
    var frameSkipCount :- IntOf(t.frameSkip);
    var captureImageEnabled :- FlagOf(t.captureImage);
    var captureVideoEnabled :- FlagOf(t.captureVideo);
    var motionAreaThreshold :- IntOf(t.motionAreaThreshold);
    var dotRadius :- IntOf(t.dotRadius);
    var dotColour :- ColourOf(t.dotColour);
    Success(Config(cameraPort, frameResizePercent, saveIntervalSeconds, frameSkipCount,
                   captureImageEnabled, captureVideoEnabled, motionAreaThreshold, dotRadius, dotColour))
  }

  /** Lines 8-17 of `load_config`. */
  function DecodeConfig(store: Store): Result<Config, ConfigError> {
    DecodeTexts(ReadTexts(store))
  }

  /** The dictionary literal of lines 19-29. */
  function AsDict(c: Config): (d: map<string, Value>)
    ensures d.Keys == DictKeys
  {
    map[
      "camera_port" := IntValue(c.cameraPort),
      "frame_resize_percent" := IntValue(c.frameResizePercent),
      "save_interval_seconds" := IntValue(c.saveIntervalSeconds),
      "frame_skip_count" := IntValue(c.frameSkipCount),
      "capture_image_enabled" := FlagValue(c.captureImageEnabled),
      "capture_video_enabled" := FlagValue(c.captureVideoEnabled),
      "motion_area_threshold" := IntValue(c.motionAreaThreshold),
      "dot_radius" := IntValue(c.dotRadius),
      "dot_colour" := TupleValue(c.dotColour)
    ]
  }

  /** `load_config`, given the already parsed INI file. */
  function LoadConfig(store: Store): (r: Result<map<string, Value>, ConfigError>)
    ensures r.Success? <==> DecodeConfig(store).Success?
    ensures r.Success? ==> r.value.Keys == DictKeys
    ensures r.Success? ==> r.value == AsDict(DecodeConfig(store).value)
    ensures r.Failure? ==> r.error == DecodeConfig(store).error
  {
    var c :- DecodeConfig(store);
    Success(AsDict(c))
  }

  // ---------------------------------------------------------------------------
  // Writing options back as INI text, the inverse the decoder is checked against
  // ---------------------------------------------------------------------------

  /** The fields of a colour written as Python writes a tuple, `"(0, 0, 255)"`:
      the first bare, the others after a blank. */
  function ColourFields(cs: seq<int>): (fs: seq<string>)
    requires |cs| > 0
    ensures |fs| == |cs|
  {
    [FormatInt(cs[0])] + seq(|cs| - 1, k requires 0 <= k < |cs| - 1 => " " + FormatInt(cs[k + 1]))
  }

  function ColourText(cs: seq<int>): string
    requires |cs| > 0
  {
    "(" + Join(ColourFields(cs), ',') + ")"
  }

  /** Each written field is free of commas, ends in a digit and reads back as
      its component. */
  lemma ColourFieldReads(cs: seq<int>, k: nat)
    requires k < |cs|
    ensures ',' !in ColourFields(cs)[k]
    ensures ColourFields(cs)[k] != [] && IsDigit(ColourFields(cs)[k][|ColourFields(cs)[k]| - 1])
    ensures ParseInt(ColourFields(cs)[k]) == Some(cs[k])
  {
    var f := ColourFields(cs)[k];
    var t := FormatInt(cs[k]);
    FormatIntShape(cs[k]);
    FormatIntNoComma(cs[k]);
    if k == 0 {
      assert f == t;
      ParseFormatInt(cs[k]);
    } else {
      assert f == " " + t;
      ParseSpacedFormatInt(cs[k]);
    }
  }

  /** Fields that all read as integers convert to exactly those integers. */
  lemma {:induction false} ParseFieldsAll(fields: seq<string>, cs: seq<int>)
    requires |fields| == |cs|
    requires forall k :: 0 <= k < |fields| ==> ParseInt(fields[k]) == Some(cs[k])
    ensures ParseFields(fields) == Success(cs)
    decreases |fields|
  {
    if |fields| > 0 {
      ParseFieldsAll(fields[1..], cs[1..]);
      assert [cs[0]] + cs[1..] == cs;
    }
  }

  /** The comma-joined fields of a colour neither start nor end with a parenthesis. */
  lemma ColourBodyEnds(cs: seq<int>)
    requires |cs| > 0
    ensures var body := Join(ColourFields(cs), ',');
      body != [] && body[0] !in Parens && body[|body| - 1] !in Parens
  {
    var fs := ColourFields(cs);
    var body := Join(fs, ',');
    FormatIntShape(cs[0]);
    assert fs[0] == FormatInt(cs[0]);
    assert body[0] == fs[0][0];
    ColourFieldReads(cs, |cs| - 1);
    JoinLast(fs, ',');
  }

  /** Stripping the parentheses of a written colour leaves its fields joined by commas. */
  lemma ColourTextStrips(cs: seq<int>)
    requires |cs| > 0
    ensures Strip(ColourText(cs), Parens) == Join(ColourFields(cs), ',')
  {
    var body := Join(ColourFields(cs), ',');
    ColourBodyEnds(cs);
    assert ColourText(cs) == "(" + body + ")";
    StripPadded("(", body, ")", Parens);
  }

  /** A colour written as a parenthesised, comma-separated list reads back as
      the same components, for any number of them. */
  lemma ParseColourText(cs: seq<int>)
    requires |cs| > 0
    ensures ParseColour(ColourText(cs)) == Success(cs)
  {
    var fs := ColourFields(cs);
    forall k | 0 <= k < |fs|
      ensures ',' !in fs[k] && ParseInt(fs[k]) == Some(cs[k])
    {
      ColourFieldReads(cs, k);
    }
    ColourTextStrips(cs);
    SplitJoin(fs, ',');
    ParseFieldsAll(fs, cs);
  }

  /** The fallback colour text decodes to red, `(0, 0, 255)` in BGR order. */
  lemma DefaultColour()
    ensures ParseColour("(0, 0, 255)") == Success([0, 0, 255])
  {
    DefaultColourText();
    ParseColourText([0, 0, 255]);
  }

  /** The colour's length is not checked: two components are accepted. */
  lemma TwoComponentColour()
    ensures ParseColour("(1, 2)") == Success([1, 2])
  {
    assert FormatInt(1) == "1" && FormatInt(2) == "2";
    var fs := ColourFields([1, 2]);
    assert fs[0] == "1" && fs[1] == " 2";
    assert fs == ["1", " 2"];
    assert ColourText([1, 2]) == "(1, 2)";
    ParseColourText([1, 2]);
  }

  /** An empty tuple text has one empty field, which `int()` rejects. */
  lemma EmptyColourRejected()
    ensures ParseColour("()") == Failure("")
  {
  }

  /** A boolean written by Python reads back as itself. */
  lemma ParseBoolText(b: bool)
    ensures ParseBool(BoolText(b)) == Some(b)
  {
    if b {
      assert Lower("True") == "true";
    } else {
      assert Lower("False") == "false";
    }
  }

  /** Lower-casing makes the boolean words case-insensitive. */
  lemma ParseBoolUpperCase()
    ensures ParseBool("YES") == Some(true) && ParseBool("Off") == Some(false)
  {
    assert Lower("YES") == "yes";
    assert Lower("Off") == "off";
  }

  /** The texts an INI file holding the options of `c` presents. */
  function TextsOf(c: Config): Texts
    requires |c.dotColour| > 0
  {
    Texts(
      FormatInt(c.cameraPort), FormatInt(c.frameResizePercent),
      FormatInt(c.saveIntervalSeconds), FormatInt(c.frameSkipCount),
      if c.captureImageEnabled.Some? then Some(BoolText(c.captureImageEnabled.value)) else None,
      if c.captureVideoEnabled.Some? then Some(BoolText(c.captureVideoEnabled.value)) else None,
      FormatInt(c.motionAreaThreshold), FormatInt(c.dotRadius), ColourText(c.dotColour))
  }

  /** Converting the written texts gives back every option. */
  lemma DecodeTextsOf(c: Config)
    requires |c.dotColour| > 0
    ensures DecodeTexts(TextsOf(c)) == Success(c)
  {
    ParseFormatInt(c.cameraPort);
    ParseFormatInt(c.frameResizePercent);
    ParseFormatInt(c.saveIntervalSeconds);
    ParseFormatInt(c.frameSkipCount);
    ParseFormatInt(c.motionAreaThreshold);
    ParseFormatInt(c.dotRadius);
    ParseColourText(c.dotColour);
    if c.captureImageEnabled.Some? { ParseBoolText(c.captureImageEnabled.value); }
    if c.captureVideoEnabled.Some? { ParseBoolText(c.captureVideoEnabled.value); }
  }

  /** The INI file that stores every option of `c` as text, leaving a capture
      flag out when it is `None`. */
  function StoreOf(c: Config): Store
    requires |c.dotColour| > 0
  {
    var t := TextsOf(c);
    var base := map[
      ("DEFAULT", "CameraPort") := t.cameraPort,
      ("DEFAULT", "FrameResizePercent") := t.frameResizePercent,
      ("DEFAULT", "SaveIntervalSeconds") := t.saveIntervalSeconds,
      ("DEFAULT", "FrameSkip") := t.frameSkip,
      ("MOTION", "MotionAreaThreshold") := t.motionAreaThreshold,
      ("MOTION", "DotRadius") := t.dotRadius,
      ("MOTION", "DotColour") := t.dotColour
    ];
    var withImage := match t.captureImage
      case None => base
      case Some(b) => base[("DEFAULT", "CaptureImage") := b];
    match t.captureVideo
    case None => withImage
    case Some(b) => withImage[("DEFAULT", "CaptureVideo") := b]
  }

  /** Every option stored in the file overrides its fallback: decoding the
      file written from `c` gives back `c`. */
  lemma DecodeStoreOf(c: Config)
    requires |c.dotColour| > 0
    ensures DecodeConfig(StoreOf(c)) == Success(c)
  {
    assert ReadTexts(StoreOf(c)) == TextsOf(c);
    DecodeTextsOf(c);
  }

  /** With no keys present every option takes its fallback: camera 0, resize
      50 %, interval 10, frame skip 1, no capture flags, threshold 500, radius 5
      and colour (0, 0, 255). */
  lemma DecodeEmptyStore()
    ensures DecodeConfig(map[]) == Success(Defaults)
  {
    DefaultTexts();
    assert ReadTexts(map[]) == TextsOf(Defaults);
    DecodeTextsOf(Defaults);
  }

  /** The fallback texts are exactly the default options written out. */
  lemma DefaultTexts()
    ensures TextsOf(Defaults) == Texts("0", "50", "10", "1", None, None, "500", "5", "(0, 0, 255)")
  {
    assert FormatNat(5) == "5";
    assert FormatNat(50) == "50";
    assert FormatNat(10) == "10";
    assert FormatNat(500) == "500";
    DefaultColourText();
  }

  lemma DefaultColourText()
    ensures ColourText([0, 0, 255]) == "(0, 0, 255)"
  {
    assert FormatNat(2) == "2";
    assert FormatNat(25) == "25";
    assert FormatInt(255) == "255";
    assert FormatInt(0) == "0";
    var fs := ColourFields([0, 0, 255]);
    assert fs[0] == "0" && fs[1] == " 0" && fs[2] == " 255";
    assert fs == ["0", " 0", " 255"];
  }

  /** The configured motion threshold is read from the MOTION section, every
      other option keeping its fallback. */
  lemma DecodeStoredThreshold(n: int)
    ensures DecodeConfig(map[("MOTION", "MotionAreaThreshold") := FormatInt(n)])
            == Success(Defaults.(motionAreaThreshold := n))
  {
    DefaultTexts();
    var c := Defaults.(motionAreaThreshold := n);
    assert TextsOf(c) == TextsOf(Defaults).(motionAreaThreshold := FormatInt(n));
    assert ReadTexts(map[("MOTION", "MotionAreaThreshold") := FormatInt(n)]) == TextsOf(c);
    DecodeTextsOf(c);
  }

  /** The texts of the six options decoded with `int()`, in source order. */
  function IntTexts(t: Texts): seq<string> {
    [t.cameraPort, t.frameResizePercent, t.saveIntervalSeconds, t.frameSkip,
     t.motionAreaThreshold, t.dotRadius]
  }

  /** A stored (or fallback) text that is not an integer fails the whole load;
      no option silently falls back to its default. */
  lemma DecodeRejectsNonInteger(store: Store, k: nat)
    requires k < 6
    requires ParseInt(IntTexts(ReadTexts(store))[k]).None?
    ensures DecodeConfig(store).Failure?
  {
    var t := ReadTexts(store);
    assert IntOf(IntTexts(t)[k]).Failure?;
    if k == 0 { assert IntOf(t.cameraPort).Failure?; }
    else if k == 1 { assert IntOf(t.frameResizePercent).Failure?; }
    else if k == 2 { assert IntOf(t.saveIntervalSeconds).Failure?; }
    else if k == 3 { assert IntOf(t.frameSkip).Failure?; }
    else if k == 4 { assert IntOf(t.motionAreaThreshold).Failure?; }
    else { assert IntOf(t.dotRadius).Failure?; }
  }

  /** A capture flag whose text is not a boolean word fails the whole load. */
  lemma DecodeRejectsNonBoolean(store: Store, key: string)
    requires key == "CaptureImage" || key == "CaptureVideo"
    requires ("DEFAULT", key) in store && ParseBool(store[("DEFAULT", key)]).None?
    ensures DecodeConfig(store).Failure?
  {
  }

  /** A successful load holds, for each option, exactly the conversion of its
      stored text or, for an absent key, of its fallback; an absent capture
      flag is `None`. */
  lemma DecodedOptions(store: Store)
    requires DecodeConfig(store).Success?
    ensures var c := DecodeConfig(store).value;
      && ParseInt(Get(store, "DEFAULT", "CameraPort", "0")) == Some(c.cameraPort)
      && ParseInt(Get(store, "DEFAULT", "FrameResizePercent", "50")) == Some(c.frameResizePercent)
      && ParseInt(Get(store, "DEFAULT", "SaveIntervalSeconds", "10")) == Some(c.saveIntervalSeconds)
      && ParseInt(Get(store, "DEFAULT", "FrameSkip", "1")) == Some(c.frameSkipCount)
      && (("DEFAULT", "CaptureImage") !in store ==> c.captureImageEnabled == None)
      && (("DEFAULT", "CaptureImage") in store ==> c.captureImageEnabled == ParseBool(store[("DEFAULT", "CaptureImage")]))
      && (("DEFAULT", "CaptureVideo") !in store ==> c.captureVideoEnabled == None)
      && (("DEFAULT", "CaptureVideo") in store ==> c.captureVideoEnabled == ParseBool(store[("DEFAULT", "CaptureVideo")]))
      && ParseInt(Get(store, "MOTION", "MotionAreaThreshold", "500")) == Some(c.motionAreaThreshold)
      && ParseInt(Get(store, "MOTION", "DotRadius", "5")) == Some(c.dotRadius)
      && ParseColour(Get(store, "MOTION", "DotColour", "(0, 0, 255)")) == Success(c.dotColour)
  {
    DecodedTexts(ReadTexts(store));
  }

  /** The dictionary keeps every decoded option: two configurations with the
      same dictionary are the same. */
  lemma AsDictInjective(a: Config, b: Config)
    requires AsDict(a) == AsDict(b)
    ensures a == b
  {
  }

  /** With no keys present, `load_config` returns the dictionary of defaults. */
  lemma LoadConfigEmpty()
    ensures LoadConfig(map[]) == Success(map[
      "camera_port" := IntValue(0),
      "frame_resize_percent" := IntValue(50),
      "save_interval_seconds" := IntValue(10),
      "frame_skip_count" := IntValue(1),
      "capture_image_enabled" := FlagValue(None),
      "capture_video_enabled" := FlagValue(None),
      "motion_area_threshold" := IntValue(500),
      "dot_radius" := IntValue(5),
      "dot_colour" := TupleValue([0, 0, 255])])
  {
    DecodeEmptyStore();
  }

  /** Each key of a successfully loaded dictionary holds the conversion of
      the text its option is read from, so no two options are swapped. */
  lemma LoadedOptions(store: Store)
    requires LoadConfig(store).Success?
    ensures var d := LoadConfig(store).value;
      && IntOf(Get(store, "DEFAULT", "CameraPort", "0")).Success?
      && d["camera_port"] == IntValue(IntOf(Get(store, "DEFAULT", "CameraPort", "0")).value)
      && IntOf(Get(store, "DEFAULT", "FrameResizePercent", "50")).Success?
      && d["frame_resize_percent"] == IntValue(IntOf(Get(store, "DEFAULT", "FrameResizePercent", "50")).value)
      && IntOf(Get(store, "DEFAULT", "SaveIntervalSeconds", "10")).Success?
      && d["save_interval_seconds"] == IntValue(IntOf(Get(store, "DEFAULT", "SaveIntervalSeconds", "10")).value)
      && IntOf(Get(store, "DEFAULT", "FrameSkip", "1")).Success?
      && d["frame_skip_count"] == IntValue(IntOf(Get(store, "DEFAULT", "FrameSkip", "1")).value)
      && FlagOf(Lookup(store, "DEFAULT", "CaptureImage")).Success?
      && d["capture_image_enabled"] == FlagValue(FlagOf(Lookup(store, "DEFAULT", "CaptureImage")).value)
      && FlagOf(Lookup(store, "DEFAULT", "CaptureVideo")).Success?
      && d["capture_video_enabled"] == FlagValue(FlagOf(Lookup(store, "DEFAULT", "CaptureVideo")).value)
      && IntOf(Get(store, "MOTION", "MotionAreaThreshold", "500")).Success?
      && d["motion_area_threshold"] == IntValue(IntOf(Get(store, "MOTION", "MotionAreaThreshold", "500")).value)
      && IntOf(Get(store, "MOTION", "DotRadius", "5")).Success?
      && d["dot_radius"] == IntValue(IntOf(Get(store, "MOTION", "DotRadius", "5")).value)
      && ColourOf(Get(store, "MOTION", "DotColour", "(0, 0, 255)")).Success?
      && d["dot_colour"] == TupleValue(ColourOf(Get(store, "MOTION", "DotColour", "(0, 0, 255)")).value)
  {
    var t := ReadTexts(store);
    var c := DecodeTexts(t).value;
    DecodedTexts(t);
    AsDictLookup(c);
    assert LoadConfig(store).value == AsDict(c);
  }

  /** Each key of the dictionary holds the option it is named after. */
  lemma AsDictLookup(c: Config)
    ensures var d := AsDict(c);
      && d["camera_port"] == IntValue(c.cameraPort)
      && d["frame_resize_percent"] == IntValue(c.frameResizePercent)
      && d["save_interval_seconds"] == IntValue(c.saveIntervalSeconds)
      && d["frame_skip_count"] == IntValue(c.frameSkipCount)
      && d["capture_image_enabled"] == FlagValue(c.captureImageEnabled)
      && d["capture_video_enabled"] == FlagValue(c.captureVideoEnabled)
      && d["motion_area_threshold"] == IntValue(c.motionAreaThreshold)
      && d["dot_radius"] == IntValue(c.dotRadius)
      && d["dot_colour"] == TupleValue(c.dotColour)
  {
  }

  /** Each option of a successful conversion is the conversion of its text. */
  lemma DecodedTexts(t: Texts)
    requires DecodeTexts(t).Success?
    ensures var c := DecodeTexts(t).value;
      && IntOf(t.cameraPort) == Success(c.cameraPort)
      && IntOf(t.frameResizePercent) == Success(c.frameResizePercent)
      && IntOf(t.saveIntervalSeconds) == Success(c.saveIntervalSeconds)
      && IntOf(t.frameSkip) == Success(c.frameSkipCount)
      && FlagOf(t.captureImage) == Success(c.captureImageEnabled)
      && FlagOf(t.captureVideo) == Success(c.captureVideoEnabled)
      && IntOf(t.motionAreaThreshold) == Success(c.motionAreaThreshold)
      && IntOf(t.dotRadius) == Success(c.dotRadius)
      && ColourOf(t.dotColour) == Success(c.dotColour)
  {
  }
}
