/** The settings of src/config/config.py. The environment (after
    `load_dotenv`) is the map `env`; `os.getenv(name, default)` is `Get`.
    `Config.__init__` assigns the three groups once and never changes them,
    so a configuration is a value here, built by `LoadConfig`, which fails
    where `int()` of the environment string raises. */
module Config {
  import opened Common

  type Env = map<string, string>

  datatype OssConfig = OssConfig(accessKeyId: string, accessKeySecret: string, bucketName: string,
                                 endpoint: string, region: string)

  datatype ApiConfig = ApiConfig(apiKey: string, apiBase: Option<string>, modelName: string)

  datatype AppConfig = AppConfig(debug: bool, cacheTtl: int, maxUploadSize: int, allowedExtensions: seq<string>)

  datatype Configuration = Configuration(oss: OssConfig, api: ApiConfig, app: AppConfig)

  const DefaultModel: string := "qwen-max"
  const DefaultCacheTtl: int := 3600
  const DefaultMaxUploadSize: int := 50 * 1024 * 1024
  const DefaultExtensions: string := ".pdf,.doc,.docx,.txt,.jpg,.jpeg,.png"

  const OssIncomplete: string := "OSS配置不完整，请检查环境变量"
  const ApiKeyMissing: string := "API密钥未配置，请检查环境变量"
  const NotAnInteger: string := "invalid literal for int()"

  predicate AllDigits(s: string) {
    forall i :: 0 <= i < |s| ==> IsDigit(s[i])
  }

  /** `int(s)` for a string: surrounding whitespace, an optional sign and
      decimal digits; anything else raises. */
  function ParseInt(s: string): (r: Result<int, string>)
    ensures r.Ok? ==> Strip(s) != []
  {
    var t := Strip(s);
    if t == [] then Err(NotAnInteger)
    else
      var negative := t[0] == '-';
      var digits := if t[0] == '-' || t[0] == '+' then t[1..] else t;
      if digits == [] || !AllDigits(digits) then Err(NotAnInteger)
      else
        var magnitude: int := DigitsValue(digits);
        Ok(if negative then -magnitude else magnitude)
  }

  /** `int` reads back what `str` writes, for a natural number ... */
  lemma ParseNatString(n: nat)
    ensures ParseInt(NatToString(n)) == Ok(n)
  {
    var s := NatToString(n);
    assert IsDigit(s[0]) && IsDigit(s[|s| - 1]);
    StripUnchanged(s);
    DigitsValueOfNat(n);
  }

  lemma StripNegativeNumeral(d: string)
    requires d != [] && AllDigits(d)
    ensures Strip("-" + d) == "-" + d
  {
    var s := "-" + d;
    assert s[|s| - 1] == d[|d| - 1];
    StripUnchanged(s);
  }

  /** ... and for a negative one. */
  lemma ParseNegativeString(n: nat)
    requires n > 0
    ensures ParseInt("-" + NatToString(n)) == Ok(-(n as int))
  {
    var d := NatToString(n);
    assert d != [] && AllDigits(d);
    StripNegativeNumeral(d);
    ParseMinusDigits(d);
    DigitsValueOfNat(n);
    assert DigitsValue(d) == n;
  }

  /** A minus sign followed by digits, with nothing to strip, is the negated number. */
  lemma ParseMinusDigits(d: string)
    requires d != [] && AllDigits(d) && Strip("-" + d) == "-" + d
    ensures ParseInt("-" + d) == Ok(-(DigitsValue(d) as int))
  {
    var s := "-" + d;
    assert s[0] == '-';
    assert s[1..] == d;
  }

  /** Text without a digit makes `int()` raise. */
  lemma ParseIntRejects(s: string)
    requires forall i :: 0 <= i < |s| ==> !IsDigit(s[i])
    ensures ParseInt(s).Err?
  {
    var r := StripRight(s);
    var t := Strip(s);
    if t != [] {
      var digits := if t[0] == '-' || t[0] == '+' then t[1..] else t;
      if digits != [] {
        var at := |r| - |t| + |t| - |digits|;
        assert digits[0] == t[|t| - |digits|] == r[at] == s[at];
      }
    }
  }

  /** `int(os.getenv(name, default))`: the integer default when unset, the
      parsed string otherwise. */
  function IntSetting(env: Env, name: string, default: int): Result<int, string> {
    if name in env then ParseInt(env[name]) else Ok(default)
  }

  /** A variable set to the numeral of a number, with or without a minus
      sign, reads back as that number, and removing the variable brings back
      the default. */
  lemma IntSettingReadsBack(env: Env, name: string, default: int, n: nat)
    ensures IntSetting(env[name := NatToString(n)], name, default) == Ok(n)
    ensures n > 0 ==> IntSetting(env[name := "-" + NatToString(n)], name, default) == Ok(-(n as int))
    ensures IntSetting(env - {name}, name, default) == Ok(default)
  {
    ParseNatString(n);
    if n > 0 {
      ParseNegativeString(n);
    }
    assert name !in env - {name};
  }

  /** `os.getenv('DEBUG', 'False').lower() == 'true'`. */
  function DebugFlag(env: Env): (r: bool)
    ensures r <==> "DEBUG" in env && Lower(env["DEBUG"]) == "true"
  {
    var s := Get(env, "DEBUG", "False");
    if "DEBUG" !in env then
      assert Lower(s)[0] == 'f';
      false
    else Lower(s) == "true"
  }

  /** Config.__init__. */
  function LoadConfig(env: Env): (r: Result<Configuration, string>)
    ensures r.Ok? <==> IntSetting(env, "CACHE_TTL", DefaultCacheTtl).Ok?
                       && IntSetting(env, "MAX_UPLOAD_SIZE", DefaultMaxUploadSize).Ok?
  {
    var oss := OssConfig(Get(env, "ACCESS_KEY_ID", ""), Get(env, "ACCESS_KEY_SECRET", ""),
                         Get(env, "BUCKET_NAME", ""), Get(env, "OSS_ENDPOINT", ""), Get(env, "REGION", ""));
    var api := ApiConfig(Get(env, "API_KEY", ""),
                         if "API_BASE" in env then Some(env["API_BASE"]) else None,
                         Get(env, "MODEL_NAME", DefaultModel));
    var ttl := IntSetting(env, "CACHE_TTL", DefaultCacheTtl);
    var size := IntSetting(env, "MAX_UPLOAD_SIZE", DefaultMaxUploadSize);
    if ttl.Err? then Err(ttl.error)
    else if size.Err? then Err(size.error)
    else
      var extensions := Split(Get(env, "ALLOWED_EXTENSIONS", DefaultExtensions), ',');
      Ok(Configuration(oss, api, AppConfig(DebugFlag(env), ttl.value, size.value, extensions)))
  }

  const DefaultExtensionList: seq<string> := [".pdf", ".doc", ".docx", ".txt", ".jpg", ".jpeg", ".png"]

  // The default extension string, piece by piece from the end.

  lemma JoinLastThree()
    ensures Join(DefaultExtensionList[4..], ',') == ".jpg,.jpeg,.png"
  {
    var p := DefaultExtensionList;
    assert Join(p[6..], ',') == ".png";
    assert Join(p[5..], ',') == ".jpeg,.png";
  }

  lemma JoinLastFour()
    ensures Join(DefaultExtensionList[3..], ',') == ".txt,.jpg,.jpeg,.png"
  {
    JoinLastThree();
  }

  lemma JoinLastFive()
    ensures Join(DefaultExtensionList[2..], ',') == ".docx,.txt,.jpg,.jpeg,.png"
  {
    JoinLastFour();
  }

  lemma JoinLastSix()
    ensures Join(DefaultExtensionList[1..], ',') == ".doc,.docx,.txt,.jpg,.jpeg,.png"
  {
    JoinLastFive();
  }

  lemma JoinDefaultExtensions()
    ensures Join(DefaultExtensionList, ',') == DefaultExtensions
  {
    JoinLastSix();
  }

  /** The default string splits into the seven extensions. */
  lemma DefaultExtensionsSplit()
    ensures Split(DefaultExtensions, ',') == DefaultExtensionList
  {
    JoinDefaultExtensions();
    assert forall k :: 0 <= k < |DefaultExtensionList| ==> ',' !in DefaultExtensionList[k];
    SplitJoin(DefaultExtensionList, ',');
  }

  /** With nothing set every field takes its default: empty credentials, no
      API base, "qwen-max", one hour, 50 MiB and the seven extensions. */
  lemma Defaults()
    ensures LoadConfig(map[]).Ok?
    ensures var c := LoadConfig(map[]).value;
      && c.oss == OssConfig("", "", "", "", "")
      && c.api == ApiConfig("", None, "qwen-max")
      && c.app.debug == false && c.app.cacheTtl == 3600 && c.app.maxUploadSize == 52428800
      && c.app.allowedExtensions == DefaultExtensionList
  {
    DefaultExtensionsSplit();
  }

  /** Splitting what `Join` glued back apart, when no piece holds the separator. */
  lemma {:induction false} SplitJoin(parts: seq<string>, c: char)
    requires |parts| >= 1
    requires forall k :: 0 <= k < |parts| ==> c !in parts[k]
    ensures Split(Join(parts, c), c) == parts
  {
    if |parts| == 1 {
      SplitWithoutSeparator(parts[0], c);
    } else {
      SplitJoin(parts[1..], c);
      SplitAfterFirst(parts[0], c, Join(parts[1..], c));
      assert parts == [parts[0]] + parts[1..];
    }
  }

  /** The extension setting lists the comma-separated pieces, in order, and
      gives back the string when they are joined again. */
  lemma AllowedExtensionsSplit(env: Env)
    requires LoadConfig(env).Ok?
    ensures var exts := LoadConfig(env).value.app.allowedExtensions;
      |exts| >= 1 && Join(exts, ',') == Get(env, "ALLOWED_EXTENSIONS", DefaultExtensions)
      && forall k :: 0 <= k < |exts| ==> ',' !in exts[k]
  {
    var s := Get(env, "ALLOWED_EXTENSIONS", DefaultExtensions);
    JoinSplit(s, ',');
    SplitPiecesAvoidSeparator(s, ',');
  }

  /** Config.validate: the OSS error when any of the four connection fields
      is empty (the region is not looked at), else the API-key error when the
      key is empty, else `True`. */
  function Validate(c: Configuration): (r: Result<bool, string>)
    ensures r.Ok? ==> r.value
  {
    if c.oss.accessKeyId == "" || c.oss.accessKeySecret == "" || c.oss.bucketName == "" || c.oss.endpoint == "" then
      Err(OssIncomplete)
    else if c.api.apiKey == "" then Err(ApiKeyMissing)
    else Ok(true)
  }

  predicate OssComplete(c: Configuration) {
    c.oss.accessKeyId != "" && c.oss.accessKeySecret != "" && c.oss.bucketName != "" && c.oss.endpoint != ""
  }

  /** Validation passes exactly when the OSS fields and the API key are all set;
      the OSS error wins when both are missing. */
  lemma ValidateOutcomes(c: Configuration)
    ensures Validate(c) == Ok(true) <==> OssComplete(c) && c.api.apiKey != ""
    ensures Validate(c) == Err(OssIncomplete) <==> !OssComplete(c)
    ensures Validate(c) == Err(ApiKeyMissing) <==> OssComplete(c) && c.api.apiKey == ""
  {
    assert OssIncomplete != ApiKeyMissing by {
      assert OssIncomplete[0] != ApiKeyMissing[0];
    }
  }

  /** The region, the API base, the model and the application group play no
      part in validation. */
  lemma ValidateIgnoresRest(c: Configuration, region: string, apiBase: Option<string>, model: string, app: AppConfig)
    ensures Validate(c) == Validate(Configuration(c.oss.(region := region), c.api.(apiBase := apiBase, modelName := model), app))
  {
  }

  /** An empty environment loads but does not validate. */
  lemma EmptyEnvironmentInvalid()
    ensures LoadConfig(map[]).Ok? && Validate(LoadConfig(map[]).value) == Err(OssIncomplete)
  {
    Defaults();
  }
}
