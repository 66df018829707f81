/** The build script: it reads the `PHP API` number from the output of
    `php -i`, maps it onto one of the supported API generations and prints the
    cargo directives that select the matching foreign bindings. Running `php`,
    finding it on the `PATH` and the environment are outside the model: the
    output of `php -i` is given as text. */
module BuildScript {
  import opened Wrappers
  import opened Text
  import opened Numbers

  /** The supported PHP API generations, in declaration (and release) order;
      each generation's discriminant is the Zend API number it starts at. */
  datatype ApiVersion = Php80 | Php81 | Php82 | Php83 | Php84

  /** `v as u32`: the discriminant. */
  function Id(v: ApiVersion): U32 {
    match v
    case Php80 => 2020_09_30
    case Php81 => 2021_09_02
    case Php82 => 2022_08_29
    case Php83 => 2023_08_31
    case Php84 => 2024_09_24
  }

  /** The position of a generation in the declaration. */
  function Index(v: ApiVersion): nat {
    match v
    case Php80 => 0
    case Php81 => 1
    case Php82 => 2
    case Php83 => 3
    case Php84 => 4
  }

  /** `a <= b` by the derived `PartialOrd`, which compares discriminants. */
  predicate AtMost(a: ApiVersion, b: ApiVersion) {
    Id(a) <= Id(b)
  }

  /** `ApiVersion::min()`. */
  function Min(): ApiVersion {
    Php80
  }

  /** `ApiVersion::max()`. */
  function Max(): ApiVersion {
    Php84
  }

  /** `ApiVersion::versions()`. */
  function Versions(): seq<ApiVersion> {
    [Php80, Php81, Php82, Php83, Php84]
  }

  /** Declaration order and discriminant order agree, and `Versions` lists
      every generation at its own position. */
  lemma VersionsOrdered()
    ensures forall v :: Versions()[Index(v)] == v
    ensures forall i, j :: 0 <= i < j < |Versions()| ==> Id(Versions()[i]) < Id(Versions()[j])
    ensures forall a, b :: AtMost(a, b) <==> Index(a) <= Index(b)
    ensures forall v :: AtMost(Min(), v) && AtMost(v, Max())
  {
  }

  /** The generations kept by `filter(|&v| v <= g)`, in their order. */
  function FilterAtMost(vs: seq<ApiVersion>, g: ApiVersion): seq<ApiVersion>
    decreases |vs|
  {
    if vs == [] then []
    else (if AtMost(vs[0], g) then [vs[0]] else []) + FilterAtMost(vs[1..], g)
  }

  /** `g.supported_apis()`. */
  function SupportedApis(g: ApiVersion): seq<ApiVersion> {
    FilterAtMost(Versions(), g)
  }

  /** Filtering a list in increasing order keeps exactly the prefix of the
      elements that are at most `g`. */
  lemma {:induction false} FilterAtMostPrefix(vs: seq<ApiVersion>, g: ApiVersion, k: nat)
    requires k <= |vs|
    requires forall i :: 0 <= i < k ==> AtMost(vs[i], g)
    requires forall i :: k <= i < |vs| ==> !AtMost(vs[i], g)
    ensures FilterAtMost(vs, g) == vs[..k]
    decreases |vs|
  {
    if vs != [] {
      var rest := vs[1..];
      if k == 0 {
        assert !AtMost(vs[0], g);
        FilterAtMostPrefix(rest, g, 0);
      } else {
        assert AtMost(vs[0], g);
        assert forall i :: 0 <= i < k - 1 ==> AtMost(rest[i], g) by {
          forall i | 0 <= i < k - 1 ensures AtMost(rest[i], g) { assert rest[i] == vs[i + 1]; }
        }
        assert forall i :: k - 1 <= i < |rest| ==> !AtMost(rest[i], g) by {
          forall i | k - 1 <= i < |rest| ensures !AtMost(rest[i], g) { assert rest[i] == vs[i + 1]; }
        }
        FilterAtMostPrefix(rest, g, k - 1);
        assert vs[..k] == [vs[0]] + rest[..k - 1];
      }
    }
  }

  /** `supported_apis(g)` is the declaration up to and including `g`. */
  lemma SupportedApisIsPrefix(g: ApiVersion)
    ensures SupportedApis(g) == Versions()[..Index(g) + 1]
  {
    VersionsOrdered();
    FilterAtMostPrefix(Versions(), g, Index(g) + 1);
  }

  /** `supported_apis(g)` is every generation up to and including `g`, in
      ascending order: it starts with `Php80`, ends with `g` and has one entry
      per generation not after `g`. */
  lemma SupportedApisPrefix(g: ApiVersion)
    ensures SupportedApis(g) == Versions()[..Index(g) + 1]
    ensures |SupportedApis(g)| == Index(g) + 1
    ensures SupportedApis(g)[0] == Min()
    ensures SupportedApis(g)[|SupportedApis(g)| - 1] == g
    ensures forall v :: v in SupportedApis(g) <==> AtMost(v, g)
    ensures forall i, j :: 0 <= i < j < |SupportedApis(g)| ==> Id(SupportedApis(g)[i]) < Id(SupportedApis(g)[j])
  {
    SupportedApisIsPrefix(g);
    assert SupportedApis(g)[Index(g)] == g by {
      VersionAt(g);
    }
    SupportedApisMembers(g);
    SupportedApisAscending(g);
  }

  lemma SupportedApisMembers(g: ApiVersion)
    ensures forall v :: v in SupportedApis(g) <==> AtMost(v, g)
  {
    var s := SupportedApis(g);
    SupportedApisIsPrefix(g);
    forall v ensures v in s <==> AtMost(v, g) {
      AtMostIndex(v, g);
      if AtMost(v, g) {
        VersionAt(v);
        assert s[Index(v)] == v;
      }
      if v in s {
        var i :| 0 <= i < |s| && s[i] == v;
        IndexAt(i);
      }
    }
  }

  lemma SupportedApisAscending(g: ApiVersion)
    ensures forall i, j :: 0 <= i < j < |SupportedApis(g)| ==> Id(SupportedApis(g)[i]) < Id(SupportedApis(g)[j])
  {
    SupportedApisIsPrefix(g);
    VersionsOrdered();
  }

  lemma AtMostIndex(a: ApiVersion, b: ApiVersion)
    ensures AtMost(a, b) <==> Index(a) <= Index(b)
  {
  }

  lemma VersionAt(v: ApiVersion)
    ensures Index(v) < |Versions()| && Versions()[Index(v)] == v
  {
  }

  lemma IndexAt(i: nat)
    requires i < |Versions()|
    ensures Index(Versions()[i]) == i
  {
  }

  /** `g.cfg_name()`. */
  function CfgName(g: ApiVersion): string {
    match g
    case Php80 => "php80"
    case Php81 => "php81"
    case Php82 => "php82"
    case Php83 => "php83"
    case Php84 => "php84"
  }

  /** Different generations have different cfg names. */
  lemma CfgNameInjective(a: ApiVersion, b: ApiVersion)
    ensures CfgName(a) == CfgName(b) ==> a == b
  {
    if CfgName(a) == CfgName(b) {
      assert CfgName(a)[4] == CfgName(b)[4];
    }
  }

  /** The generation after `g`, whose number closes `g`'s interval. */
  function Successor(g: ApiVersion): ApiVersion
    requires g != Max()
  {
    Versions()[Index(g) + 1]
  }

  /** `version` lies in the range of `g`: from `g`'s own number up to but not
      including the next generation's, or exactly `g`'s number for the last. */
  predicate InRange(version: int, g: ApiVersion) {
    if g == Max() then version == Id(g) else Id(g) <= version < Id(Successor(g))
  }

  /** The build script's errors, each with the message it prints. */
  datatype BuildError =
    | MissingApiKey
    | BadApiNumber(kind: IntErrorKind)
    | UnsupportedVersion(version: U32, min: U32, max: U32)

  function Message(e: BuildError): string {
    match e
    case MissingApiKey => "Failed to get Zend version"
    case BadApiNumber(_) => "Failed to convert Zend version to integer"
    case UnsupportedVersion(v, lo, hi) =>
      "The current version of PHP is not supported. Current PHP API version: "
      + Dec(v) + ", requires a version between " + Dec(lo) + " and " + Dec(hi)
  }

  /** `ApiVersion::try_from(version)`: the generation whose range holds the
      number, or an `UnsupportedVersion` error that names the number and the
      supported bounds. */
  function FromApiNumber(version: U32): (r: Result<ApiVersion, BuildError>)
    ensures r.Success? <==> Id(Min()) <= version <= Id(Max())
    ensures r.Success? ==> InRange(version, r.value)
    ensures r.Failure? ==> r.error == UnsupportedVersion(version, Id(Min()), Id(Max()))
  {
    if Id(Php80) <= version < Id(Php81) then Success(Php80)
    else if Id(Php81) <= version < Id(Php82) then Success(Php81)
    else if Id(Php82) <= version < Id(Php83) then Success(Php82)
    else if Id(Php83) <= version < Id(Php84) then Success(Php83)
    else if version == Id(Php84) then Success(Php84)
    else Failure(UnsupportedVersion(version, Id(Min()), Id(Max())))
  }

  /** Resolution yields `g` exactly when the number lies in `g`'s range. */
  lemma FromApiNumberExact(version: U32, g: ApiVersion)
    ensures FromApiNumber(version) == Success(g) <==> InRange(version, g)
  {
    if InRange(version, g) {
      var r := FromApiNumber(version);
      assert r.Success?;
      assert InRange(version, r.value);
      RangesDisjoint(version, r.value, g);
    }
  }

  lemma RangesDisjoint(version: int, a: ApiVersion, b: ApiVersion)
    requires InRange(version, a) && InRange(version, b)
    ensures a == b
  {
  }

  /** A larger number never resolves to an older generation, and the
      generation's own number never exceeds the number it was resolved from. */
  lemma FromApiNumberMonotone(v1: U32, v2: U32)
    requires v1 <= v2
    requires FromApiNumber(v1).Success? && FromApiNumber(v2).Success?
    ensures AtMost(FromApiNumber(v1).value, FromApiNumber(v2).value)
    ensures Id(FromApiNumber(v1).value) <= v1
  {
  }

  lemma ContainsAt(s: string, a: string, t: string, b: string)
    requires s == a + t + b
    ensures Contains(s, t)
  {
    assert s[|a|..|a| + |t|] == t;
    assert OccursAt(s, t, |a|);
  }

  lemma ContainsEachField(a: string, b: string, c: string, d: string, e: string, f: string)
    ensures Contains(a + b + c + d + e + f, b)
    ensures Contains(a + b + c + d + e + f, d)
    ensures Contains(a + b + c + d + e + f, f)
  {
    var s := a + b + c + d + e + f;
    ContainsAt(s, a, b, c + d + e + f);
    ContainsAt(s, a + b + c, d, e + f);
    ContainsAt(s, a + b + c + d + e, f, []);
  }

  /** The message of an unsupported-version error shows the number and both
      bounds in decimal. */
  lemma UnsupportedMessageNamesFields(v: U32, lo: U32, hi: U32)
    ensures var m := Message(UnsupportedVersion(v, lo, hi));
      Contains(m, Dec(v)) && Contains(m, Dec(lo)) && Contains(m, Dec(hi))
  {
    ContainsEachField("The current version of PHP is not supported. Current PHP API version: ",
      Dec(v), ", requires a version between ", Dec(lo), " and ", Dec(hi));
  }

  /** A number outside the supported range is refused with a message that
      shows it and the bounds `lo` = 20200930 and `hi` = 20240924. */
  lemma UnsupportedMessageNamesBounds(version: U32, lo: U32, hi: U32)
    requires FromApiNumber(version).Failure?
    requires lo == 2020_09_30 && hi == 2024_09_24
    ensures var m := Message(FromApiNumber(version).error);
      Contains(m, Dec(version)) && Contains(m, Dec(lo)) && Contains(m, Dec(hi))
  {
    assert FromApiNumber(version).error == UnsupportedVersion(version, lo, hi);
    UnsupportedMessageNamesFields(version, lo, hi);
  }

  /** The output of `php -i`. */
  datatype PhpInfo = PhpInfo(text: string)

  /** The value of the first line that holds `sep`: the text after its first
      occurrence, up to the next one or to the end of the line. */
  function FirstValue(lines: seq<string>, sep: string): Option<string>
    requires sep != []
    decreases |lines|
  {
    if lines == [] then None
    else
      var components := Split(lines[0], sep);
      if |components| > 1 then Some(components[1]) else FirstValue(lines[1..], sep)
  }

  /** `FirstValue` finds nothing exactly when no line holds the separator;
      otherwise it gives the second piece of the first line that holds it,
      and that value holds no separator. */
  lemma {:induction false} FirstValueSpec(lines: seq<string>, sep: string)
    requires sep != []
    ensures FirstValue(lines, sep).None? <==> forall k :: 0 <= k < |lines| ==> !Contains(lines[k], sep)
    ensures FirstValue(lines, sep).Some? ==> !Contains(FirstValue(lines, sep).value, sep)
    ensures FirstValue(lines, sep).Some? ==> exists k: nat ::
      FirstWith(lines, sep, k) && |Split(lines[k], sep)| > 1 && FirstValue(lines, sep).value == Split(lines[k], sep)[1]
    decreases |lines|
  {
    if lines != [] {
      SplitPieces(lines[0], sep);
      if |Split(lines[0], sep)| > 1 {
        assert FirstWith(lines, sep, 0);
      } else {
        var tail := lines[1..];
        FirstValueSpec(tail, sep);
        assert forall k :: 1 <= k < |lines| ==> lines[k] == tail[k - 1];
        var r := FirstValue(tail, sep);
        if r.Some? {
          var k: nat :| FirstWith(tail, sep, k) && |Split(tail[k], sep)| > 1 && r.value == Split(tail[k], sep)[1];
          assert lines[k + 1] == tail[k];
          assert FirstWith(lines, sep, k + 1);
        }
      }
    }
  }

  /** Line `k` is the first of `lines` that holds `sep`. */
  predicate FirstWith(lines: seq<string>, sep: string, k: nat) {
    && k < |lines| && Contains(lines[k], sep)
    && forall j :: 0 <= j < k ==> !Contains(lines[j], sep)
  }

  /** A first line that splits into two or more pieces gives its second
      piece. */
  lemma FirstValueHead(lines: seq<string>, sep: string)
    requires sep != [] && lines != [] && |Split(lines[0], sep)| > 1
    ensures FirstValue(lines, sep) == Some(Split(lines[0], sep)[1])
  {
  }

  /** The separator searched for a key: `"{key} => "`. */
  function KeySeparator(key: string): (sep: string)
    ensures sep != []
  {
    key + " => "
  }

  /** What `get_key(key)` returns for a given `php -i` text. */
  function KeyValue(text: string, key: string): Option<string> {
    FirstValue(Lines(text), KeySeparator(key))
  }

  /** `PHPInfo::get_key`: scans the lines of the output and returns the
      value after `"{key} => "` on the first line that has it. */
  method GetKey(info: PhpInfo, key: string) returns (r: Option<string>)
    ensures r == KeyValue(info.text, key)
  {
    var split := KeySeparator(key);
    var lines := Lines(info.text);
    var i := 0;
    while i < |lines|
      invariant 0 <= i <= |lines|
      invariant FirstValue(lines[i..], split) == FirstValue(lines, split)
    {
      var components := Split(lines[i], split);
      if |components| > 1 {
        return Some(components[1]);
      }
      assert lines[i..][1..] == lines[i + 1..];
      i := i + 1;
    }
    return None;
  }

  /** A first line `"{key} => {value}"` gives `value`, whatever follows, as
      long as the value holds no further separator and does not end in `\r`. */
  lemma KeyValueFirstLine(key: string, value: string, rest: string)
    requires '\n' !in key + " => " + value
    requires value != [] && value[|value| - 1] != '\r'
    requires IndexOf(value, KeySeparator(key)) == None
    ensures KeyValue(key + " => " + value + "\n" + rest, key) == Some(value)
  {
    var line := key + " => " + value;
    assert line[|line| - 1] == value[|value| - 1];
    LinesFirst(line, rest);
    SplitLeading(KeySeparator(key), value);
    KeyValueHead(line + "\n" + rest, key, value);
  }

  /** A first line that splits as `["", value]` around the key's separator
      gives `value`. */
  lemma KeyValueHead(text: string, key: string, value: string)
    requires Lines(text) != [] && Split(Lines(text)[0], KeySeparator(key)) == ["", value]
    ensures KeyValue(text, key) == Some(value)
  {
    FirstValueHead(Lines(text), KeySeparator(key));
  }

  /** What `zend_version()` returns: the `PHP API` value read as a `u32`. */
  function ZendVersionOf(text: string): (r: Result<U32, BuildError>)
    ensures KeyValue(text, "PHP API").None? ==> r == Failure(MissingApiKey)
    ensures KeyValue(text, "PHP API").Some? ==>
      var s := KeyValue(text, "PHP API").value;
      && (r.Success? <==> ValidU32Text(s))
      && (r.Success? ==> r.value == DigitsValue(Unsigned(s)))
      && (r.Failure? ==> r.error.BadApiNumber?)
  {
    match KeyValue(text, "PHP API")
    case None => Failure(MissingApiKey)
    case Some(s) =>
      match ParseU32(s)
      case Success(n) => Success(n)
      case Failure(kind) => Failure(BadApiNumber(kind))
  }

  /** A first line `"{key} => {n}"` gives the decimal text of `n`. */
  lemma KeyValueDecLine(key: string, n: nat, rest: string)
    requires key != [] && !IsDigit(key[0]) && '\n' !in key
    ensures KeyValue(key + " => " + Dec(n) + "\n" + rest, key) == Some(Dec(n))
  {
    var d := Dec(n);
    var sep := KeySeparator(key);
    var line := key + " => " + d;
    forall k | 0 <= k < |d| ensures d[k] != '\n' && d[k] != sep[0] {
      assert IsDigit(d[k]);
    }
    AbsentWhenHeadAbsent(d, sep);
    forall k | 0 <= k < |line| ensures line[k] != '\n' {
      if k < |key| {
        assert line[k] == key[k];
      } else if k < |key| + 4 {
        assert line[k] == " => "[k - |key|];
      } else {
        assert line[k] == d[k - |key| - 4];
      }
    }
    KeyValueFirstLine(key, d, rest);
  }

  /** The `PHP API => {n}` line `php -i` prints is read back as `n`, whatever
      follows it, and selects the generation `n` falls in. */
  lemma ZendVersionFromLine(n: U32, rest: string)
    ensures ZendVersionOf("PHP API => " + Dec(n) + "\n" + rest) == Success(n)
    ensures Resolve("PHP API => " + Dec(n) + "\n" + rest) == FromApiNumber(n)
  {
    var text := "PHP API => " + Dec(n) + "\n" + rest;
    assert KeyValue(text, "PHP API") == Some(Dec(n)) by {
      assert "PHP API"[0] == 'P';
      assert "PHP API" + " => " == "PHP API => ";
      KeyValueDecLine("PHP API", n, rest);
    }
    ParseDec(n);
  }

  /** `PHPInfo::zend_version`. */
  method ZendVersion(info: PhpInfo) returns (r: Result<U32, BuildError>)
    ensures r == ZendVersionOf(info.text)
  {
    var value := GetKey(info, "PHP API");
    if value.None? {
      return Failure(MissingApiKey);
    }
    var parsed := ParseU32(value.value);
    if parsed.Failure? {
      return Failure(BadApiNumber(parsed.error));
    }
    return Success(parsed.value);
  }

  /** The generation a `php -i` text selects, or the first error on the way. */
  function Resolve(text: string): Result<ApiVersion, BuildError> {
    match ZendVersionOf(text)
    case Failure(e) => Failure(e)
    case Success(n) => FromApiNumber(n)
  }

  /** A line the build script prints for cargo. */
  datatype Directive =
    | CheckCfg             // declares the cfg names the crate may test
    | EolWarning           // the end-of-life warning for PHP 8.0
    | RustcCfg(cfg: string) // sets one cfg

  /** The text `println!` writes for a directive. */
  function Render(d: Directive): string {
    match d
    case CheckCfg => "cargo::" + "rustc-check-cfg=cfg(php80, php81, php82, php83, php84)"
    case EolWarning => "cargo:" + "warning=" + EOL_MESSAGE
    case RustcCfg(name) => "cargo:" + "rustc-cfg=" + name
  }

  const EOL_MESSAGE: string := "PHP 8.0 is EOL and will no longer be supported in a future release. Please upgrade to a supported version of PHP. See https://www.php.net/supported-versions.php for information on version support timelines."

  /** Different directives print different lines, so the printed text says
      which directives were emitted. */
  lemma RenderInjective(a: Directive, b: Directive)
    ensures Render(a) == Render(b) ==> a == b
  {
    RenderTag(a);
    RenderTag(b);
    if a.RustcCfg? && b.RustcCfg? {
      RenderCfgName(a.cfg);
      RenderCfgName(b.cfg);
    }
  }

  /** The character after `cargo:` tells the three kinds of line apart. */
  lemma RenderTag(d: Directive)
    ensures |Render(d)| > 6
    ensures Render(d)[6] == (match d case CheckCfg => ':' case EolWarning => 'w' case RustcCfg(_) => 'r')
  {
  }

  /** A `rustc-cfg` line ends with the cfg name it sets. */
  lemma RenderCfgName(name: string)
    ensures |Render(RustcCfg(name))| == 16 + |name| && Render(RustcCfg(name))[16..] == name
  {
  }

  /** One `cargo:rustc-cfg` directive per generation, in the given order. */
  function CfgDirectives(vs: seq<ApiVersion>): seq<Directive>
    decreases |vs|
  {
    if vs == [] then [] else [RustcCfg(CfgName(vs[0]))] + CfgDirectives(vs[1..])
  }

  /** The directives the build script prints once `g` is selected. */
  function BuildDirectives(g: ApiVersion): seq<Directive> {
    [CheckCfg] + (if g == Php80 then [EolWarning] else []) + CfgDirectives(SupportedApis(g))
  }

  /** `check_php_version`: on success the directives it printed, in order; on
      failure the error, with nothing printed. */
  method CheckPhpVersion(info: PhpInfo) returns (r: Outcome<BuildError>, out: seq<Directive>)
    ensures Resolve(info.text).Failure? ==> r == Fail(Resolve(info.text).error) && out == []
    ensures Resolve(info.text).Success? ==> r == Pass && out == BuildDirectives(Resolve(info.text).value)
  {
    var number := ZendVersion(info);
    if number.Failure? {
      return Fail(number.error), [];
    }
    var version := FromApiNumber(number.value);
    if version.Failure? {
      return Fail(version.error), [];
    }
    out := PrintCfg(version.value);
    return Pass, out;
  }

  /** The printing half of `check_php_version` once `g` is selected: the
      check-cfg line, the warning for `Php80`, then one cfg per supported
      generation. */
  method PrintCfg(g: ApiVersion) returns (out: seq<Directive>)
    ensures out == BuildDirectives(g)
  {
    out := [CheckCfg];
    if g == Php80 {
      out := out + [EolWarning];
    }
    assert out == [CheckCfg] + (if g == Php80 then [EolWarning] else []);
    out := PrintEach(out, SupportedApis(g));
  }

  /** The loop over `supported_apis()`: one `cargo:rustc-cfg` line per
      generation, printed after the lines already out, one after another. */
  method PrintEach(printed: seq<Directive>, apis: seq<ApiVersion>) returns (out: seq<Directive>)
    ensures out == printed + CfgDirectives(apis)
  {
    out := printed;
    for i := 0 to |apis|
      invariant out == printed + CfgDirectives(apis[..i])
    {
      CfgDirectivesSnoc(apis[..i], apis[i]);
      assert apis[..i + 1] == apis[..i] + [apis[i]];
      out := out + [RustcCfg(CfgName(apis[i]))];
    }
    assert apis[..|apis|] == apis;
  }

  lemma {:induction false} CfgDirectivesSnoc(vs: seq<ApiVersion>, v: ApiVersion)
    ensures CfgDirectives(vs + [v]) == CfgDirectives(vs) + [RustcCfg(CfgName(v))]
    decreases |vs|
  {
    if vs != [] {
      assert (vs + [v])[1..] == vs[1..] + [v];
      CfgDirectivesSnoc(vs[1..], v);
    }
  }

  lemma {:induction false} CfgDirectivesAt(vs: seq<ApiVersion>, i: nat)
    requires i < |vs|
    ensures |CfgDirectives(vs)| == |vs| && CfgDirectives(vs)[i] == RustcCfg(CfgName(vs[i]))
    decreases |vs|
  {
    if i > 0 {
      CfgDirectivesAt(vs[1..], i - 1);
    } else if |vs| > 1 {
      CfgDirectivesAt(vs[1..], 0);
    }
  }

  /** The cfg directives never include the end-of-life warning. */
  lemma {:induction false} CfgDirectivesNoWarning(vs: seq<ApiVersion>)
    ensures EolWarning !in CfgDirectives(vs)
    decreases |vs|
  {
    if vs != [] {
      CfgDirectivesNoWarning(vs[1..]);
    }
  }

  /** The shape of a successful build's output: the check-cfg directive
      first, the end-of-life warning exactly when `Php80` is selected, and the
      cfg of the selected generation last. */
  lemma BuildDirectivesShape(g: ApiVersion)
    ensures var out := BuildDirectives(g); var w := if g == Php80 then 1 else 0;
      && |out| == 1 + w + Index(g) + 1
      && out[0] == CheckCfg
      && (EolWarning in out <==> g == Php80)
      && out[|out| - 1] == RustcCfg(CfgName(g))
  {
    var apis := SupportedApis(g);
    SupportedApisIsPrefix(g);
    CfgDirectivesAt(apis, Index(g));
    CfgDirectivesNoWarning(apis);
  }

  /** After the check-cfg line and the optional warning, the cfgs follow the
      generations in ascending order, from `Php80` up to the selected one. */
  lemma BuildDirectivesOrder(g: ApiVersion, i: nat)
    requires i <= Index(g)
    ensures var w := if g == Php80 then 1 else 0;
      1 + w + i < |BuildDirectives(g)| && BuildDirectives(g)[1 + w + i] == RustcCfg(CfgName(Versions()[i]))
  {
    var apis := SupportedApis(g);
    SupportedApisIsPrefix(g);
    CfgDirectivesAt(apis, i);
  }

  /** The cfg of a generation is set exactly in builds whose selected
      generation is not older. For `php81` this is what switches the error
      callback's file-name parameter from a C string to a `zend_string`. */
  lemma BuildDirectivesCfg(g: ApiVersion, v: ApiVersion)
    ensures RustcCfg(CfgName(v)) in BuildDirectives(g) <==> AtMost(v, g)
  {
    var d := RustcCfg(CfgName(v));
    var apis := SupportedApis(g);
    assert d in BuildDirectives(g) <==> d in CfgDirectives(apis) by {
      var head := [CheckCfg] + (if g == Php80 then [EolWarning] else []);
      assert BuildDirectives(g) == head + CfgDirectives(apis);
      assert d !in head;
    }
    assert d in CfgDirectives(apis) <==> v in apis by {
      CfgDirectivesHas(apis, v);
    }
    assert v in apis <==> AtMost(v, g) by {
      SupportedApisPrefix(g);
    }
  }

  /** The cfg of `v` is among the cfg directives of `vs` exactly when `v` is
      in `vs`. */
  lemma {:induction false} CfgDirectivesHas(vs: seq<ApiVersion>, v: ApiVersion)
    ensures RustcCfg(CfgName(v)) in CfgDirectives(vs) <==> v in vs
    decreases |vs|
  {
    if vs != [] {
      CfgDirectivesHas(vs[1..], v);
      CfgNameInjective(vs[0], v);
      assert vs == [vs[0]] + vs[1..];
    }
  }
}
