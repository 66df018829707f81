/** The extension itself: the `error_message_format` INI entry, the error
    callback that rewrites each PHP error message through that template before
    handing it on, and the start-up step that installs the callback in place
    of the engine's. Raw pointers are modelled by what they point to, the
    engine's handler slot and the saved original handler by fields of
    `Runtime`, and a call forwarded to the original handler by a `Call`
    record. */
module ErrorHook {
  import opened Wrappers
  import opened Text
  import opened Numbers
  import opened BuildScript

  /** A value of the engine's `zend_error_cb` slot: some handler of the
      engine's, told apart by an identity, or this extension's callback. */
  datatype Handler = Original(id: nat) | Ours

  /** What a `zend_string` pointer gives `String::try_from`: a null pointer,
      bytes that are not UTF-8, or a text. */
  datatype ZendString = Null | Undecodable | Utf8(text: string)

  /** A C string pointer, as `from_utf8_lossy` reads it: null, or the text
      after lossy decoding (which never fails). */
  datatype CString = CNull | CChars(lossy: string)

  /** The file-name parameter: a C string before PHP 8.1, a `zend_string`
      from PHP 8.1 on. */
  datatype FileName = CFile(c: CString) | ZendFile(z: ZendString)

  /** A call of a handler with the four arguments of the callback. */
  datatype Call = Call(target: Handler, errorType: I32, filename: FileName, lineno: U32, message: ZendString)

  datatype IniPermission = User | PerDir | System | All

  /** An INI entry definition: its name, its default value and where it may
      be changed. */
  datatype IniEntryDef = IniEntryDef(name: string, defaultValue: string, permission: IniPermission)

  /** A call of `IniEntryDef::register`: the entries and the module number. */
  datatype Registration = Registration(entries: seq<IniEntryDef>, moduleNumber: I32)

  const FORMAT_KEY: string := "error_message_format"

  /** The file name as the callback decodes it: null is `""`; before PHP 8.1
      the lossily decoded C string, from PHP 8.1 on the `zend_string`, or `""`
      when it is not UTF-8. */
  function DecodeFile(f: FileName): string {
    match f
    case CFile(CNull) => ""
    case CFile(CChars(t)) => t
    case ZendFile(z) => DecodeZend(z)
  }

  /** A `zend_string` as the callback decodes it: null or undecodable is
      `""`. */
  function DecodeZend(z: ZendString): string {
    match z
    case Utf8(t) => t
    case _ => ""
  }

  /** The message the template produces: `{type}`, then `{file}`, then
      `{line}`, then `{message}` replaced everywhere, one pass each. */
  function FormatMessage(template: string, errorType: I32, file: string, lineno: U32, message: string): string {
    var withType := Replace(template, "{type}", IntToString(errorType));
    var withFile := Replace(withType, "{file}", file);
    var withLine := Replace(withFile, "{line}", Dec(lineno));
    Replace(withLine, "{message}", message)
  }

  /** What the error callback hands on for one error, given the saved
      original handler (if any) and the INI values: nothing when no original
      was saved; otherwise a call of that original with the same type, file
      name and line, and either the untouched message (the INI value is
      absent, null or empty) or the message the template makes of the
      decoded fields. */
  function Intercept(original: Option<Handler>, ini: map<string, Option<string>>,
                     errorType: I32, filename: FileName, lineno: U32, message: ZendString): (r: Option<Call>)
    ensures r.Some? <==> original.Some?
    ensures r.Some? ==> (r.value.target == original.value && r.value.errorType == errorType
                         && r.value.filename == filename && r.value.lineno == lineno)
    ensures r.Some? && (FORMAT_KEY !in ini || ini[FORMAT_KEY] == None || ini[FORMAT_KEY] == Some("")) ==>
      r.value.message == message
    ensures r.Some? && FORMAT_KEY in ini && ini[FORMAT_KEY].Some? && ini[FORMAT_KEY].value != "" ==>
      r.value.message == Utf8(FormatMessage(ini[FORMAT_KEY].value, errorType, DecodeFile(filename), lineno, DecodeZend(message)))
  {
    match original
    case None => None
    case Some(h) =>
      if FORMAT_KEY !in ini || ini[FORMAT_KEY].None? || ini[FORMAT_KEY].value == "" then
        Some(Call(h, errorType, filename, lineno, message))
      else
        var text := FormatMessage(ini[FORMAT_KEY].value, errorType, DecodeFile(filename), lineno, DecodeZend(message));
        Some(Call(h, errorType, filename, lineno, Utf8(text)))
  }

  /** The engine state the extension touches: the `zend_error_cb` slot, the
      saved original handler and the INI registrations made so far. */
  class Runtime {
    var errorCb: Handler
    var originalCb: Option<Handler>
    var registrations: seq<Registration>

    /** The engine before the extension starts: its own handler in the slot,
        nothing saved, nothing registered. */
    constructor (engine: Handler)
      ensures errorCb == engine && originalCb == None && registrations == []
    {
      errorCb := engine;
      originalCb := None;
      registrations := [];
    }

    /** `startup`: registers `error_message_format` (default `""`, changeable
        everywhere), then, if the lock is taken, saves the handler in the
        slot and installs the extension's callback, returning 0; if the lock
        fails it returns 1 and leaves slot and saved handler as they were. */
    method Startup(moduleNumber: I32, lockOk: bool) returns (status: I32)
      modifies this
      ensures registrations == old(registrations) + [Registration([IniEntryDef(FORMAT_KEY, "", All)], moduleNumber)]
      ensures lockOk ==> status == 0 && originalCb == Some(old(errorCb)) && errorCb == Ours
      ensures !lockOk ==> status == 1 && originalCb == old(originalCb) && errorCb == old(errorCb)
    {
      registrations := registrations + [Registration([IniEntryDef(FORMAT_KEY, "", All)], moduleNumber)];
      if lockOk {
        originalCb := Some(errorCb);
        errorCb := Ours;
      } else {
        return 1;
      }
      return 0;
    }

    /** `error_callback`: what it forwards for one error. A failed lock
        reads as no saved handler. */
    method ErrorCallback(lockOk: bool, ini: map<string, Option<string>>,
                         errorType: I32, filename: FileName, lineno: U32, message: ZendString)
      returns (forwarded: Option<Call>)
      ensures forwarded == Intercept(if lockOk then originalCb else None, ini, errorType, filename, lineno, message)
    {
      var original := if lockOk then originalCb else None;
      if FORMAT_KEY !in ini || ini[FORMAT_KEY].None? {
        if original.Some? {
          return Some(Call(original.value, errorType, filename, lineno, message));
        }
        return None;
      }
      var format := ini[FORMAT_KEY].value;
      if format == "" {
        if original.Some? {
          return Some(Call(original.value, errorType, filename, lineno, message));
        }
        return None;
      }
      var file := DecodeFile(filename);
      var text := DecodeZend(message);
      var formatted := FormatMessage(format, errorType, file, lineno, text);
      if original.Some? {
        return Some(Call(original.value, errorType, filename, lineno, Utf8(formatted)));
      }
      return None;
    }
  }

  // Placeholders and brace-free text

  /** A placeholder: `{`, a name without braces, `}`. */
  predicate IsPlaceholder(p: string) {
    && |p| >= 2 && p[0] == '{' && p[|p| - 1] == '}'
    && (forall k :: 1 <= k < |p| ==> p[k] != '{')
    && (forall k :: 0 <= k < |p| - 1 ==> p[k] != '}')
  }

  lemma FourPlaceholders()
    ensures IsPlaceholder("{type}") && IsPlaceholder("{file}")
    ensures IsPlaceholder("{line}") && IsPlaceholder("{message}")
    ensures "{type}" != "{file}" && "{type}" != "{line}" && "{type}" != "{message}"
    ensures "{file}" != "{line}" && "{file}" != "{message}" && "{line}" != "{message}"
  {
    assert "{type}"[1] == 't' && "{file}"[1] == 'f' && "{line}"[1] == 'l' && "{message}"[1] == 'm';
  }

  lemma DigitsBraceFree(d: string)
    requires AllDigits(d)
    ensures '{' !in d
  {
    forall k | 0 <= k < |d| ensures d[k] != '{' {
      assert IsDigit(d[k]);
    }
  }

  /** Decimal text has no braces. */
  lemma NumbersBraceFree(t: I32, l: U32)
    ensures '{' !in IntToString(t) && '{' !in Dec(l)
  {
    DigitsBraceFree(Dec(l));
    var s := IntToString(t);
    var n: int := t;
    if n < 0 {
      DigitsBraceFree(Dec(-n));
      assert s == [s[0]] + s[1..];
    } else {
      DigitsBraceFree(Dec(n));
    }
  }

  /** A placeholder cannot start inside brace-free text. */
  lemma NoneStartsBraceFree(s: string, p: string, n: nat)
    requires n <= |s| && IsPlaceholder(p) && '{' !in s[..n]
    ensures forall j: nat :: j < n ==> !OccursAt(s, p, j)
  {
    forall j: nat | j < n ensures !OccursAt(s, p, j) {
      assert s[j] == s[..n][j];
      if j + |p| <= |s| {
        assert s[j..j + |p|][0] != p[0];
      }
    }
  }

  /** Brace-free text contains no placeholder. */
  lemma BraceFreeHasNone(s: string, p: string)
    requires IsPlaceholder(p) && '{' !in s
    ensures IndexOf(s, p) == None
  {
    assert s[..|s|] == s;
    NoneStartsBraceFree(s, p, |s|);
  }

  /** Where `q` stands, a different placeholder `p` does not start. */
  lemma NotAtOther(s: string, at: nat, q: string, p: string)
    requires IsPlaceholder(p) && IsPlaceholder(q) && p != q
    requires at + |q| <= |s| && s[at..at + |q|] == q
    ensures !OccursAt(s, p, at)
  {
    if at + |p| <= |s| {
      var w := s[at..at + |p|];
      if |p| < |q| {
        assert w[|p| - 1] == q[|p| - 1];
        assert w[|p| - 1] != p[|p| - 1];
      } else if |p| == |q| {
        assert w == q;
      } else {
        assert w[|q| - 1] == q[|q| - 1];
        assert w[|q| - 1] != p[|q| - 1];
      }
    }
  }

  /** A placeholder other than `q` does not occur in `x + q + y` when `x`
      has no braces and `y` does not hold it. */
  lemma OtherAbsent(x: string, q: string, y: string, p: string)
    requires IsPlaceholder(p) && IsPlaceholder(q) && p != q
    requires '{' !in x && IndexOf(y, p) == None
    ensures IndexOf(x + q + y, p) == None
  {
    var s := x + q + y;
    assert forall j: nat :: j < |x| ==> !OccursAt(s, p, j) by {
      assert s[..|x|] == x;
      NoneStartsBraceFree(s, p, |x|);
    }
    assert !OccursAt(s, p, |x|) by {
      assert s[|x|..|x| + |q|] == q;
      NotAtOther(s, |x|, q, p);
    }
    assert forall j: nat :: |x| < j < |x| + |q| ==> !OccursAt(s, p, j) by {
      forall j: nat | |x| < j < |x| + |q| ensures !OccursAt(s, p, j) {
        assert s[j] == q[j - |x|];
        if j + |p| <= |s| {
          assert s[j..j + |p|][0] != p[0];
        }
      }
    }
    assert forall j: nat :: |x| + |q| <= j ==> !OccursAt(s, p, j) by {
      IndexOfLeftmost(y, p);
      forall j: nat | |x| + |q| <= j ensures !OccursAt(s, p, j) {
        var j' := j - |x| - |q|;
        assert !OccursAt(y, p, j');
        if j + |p| <= |s| {
          assert s[j..j + |p|] == y[j'..j' + |p|];
        }
      }
    }
  }

  /** One replacement pass over a text whose only occurrence of `p` follows
      brace-free text. */
  lemma ReplaceHole(pre: string, p: string, post: string, v: string)
    requires IsPlaceholder(p) && '{' !in pre && IndexOf(post, p) == None
    ensures Replace(pre + p + post, p, v) == pre + v + post
  {
    var s := pre + p + post;
    assert s[..|pre|] == pre;
    NoneStartsBraceFree(s, p, |pre|);
    ReplaceStep(pre, p, post, v);
  }

  lemma BraceFreeConcat(a: string, b: string)
    requires '{' !in a && '{' !in b
    ensures '{' !in a + b
  {
    forall k | 0 <= k < |a + b| ensures (a + b)[k] != '{' {
      if k >= |a| { assert (a + b)[k] == b[k - |a|]; }
    }
  }

  // Properties of the formatter

  /** A pass for a placeholder that does not occur changes nothing. */
  lemma PassAbsent(s: string, p: string, v: string)
    requires IsPlaceholder(p) && IndexOf(s, p) == None
    ensures Replace(s, p, v) == s
  {
  }

  /** A pass over brace-free text changes nothing. */
  lemma PassBraceFree(s: string, p: string, v: string)
    requires IsPlaceholder(p) && '{' !in s
    ensures Replace(s, p, v) == s
  {
    BraceFreeHasNone(s, p);
  }

  /** A pass over a text that starts with its placeholder, which does not
      occur again, puts the value in front. */
  lemma PassLeading(p: string, rest: string, v: string)
    requires IsPlaceholder(p) && IndexOf(rest, p) == None
    ensures Replace(p + rest, p, v) == v + rest
  {
    var s := p + rest;
    assert IndexOf(s, p) == Some(0) by {
      assert s[..|p|] == p;
    }
    calc {
      Replace(s, p, v);
    == { ReplaceUnfold(s, p, v, 0); }
      s[..0] + v + Replace(s[|p|..], p, v);
    == { assert s[..0] == [] && s[|p|..] == rest; }
      v + Replace(rest, p, v);
    ==
      v + rest;
    }
  }

  /** The other placeholders do not occur around `q` in brace-free text. */
  lemma OtherFree(x: string, q: string, y: string, p: string)
    requires IsPlaceholder(p) && IsPlaceholder(q) && p != q
    requires '{' !in x && '{' !in y
    ensures IndexOf(x + q + y, p) == None
  {
    BraceFreeHasNone(y, p);
    OtherAbsent(x, q, y, p);
  }

  /** A template with none of the four placeholders comes back unchanged. */
  lemma FormatWithoutPlaceholders(template: string, errorType: I32, file: string, lineno: U32, message: string)
    requires !Contains(template, "{type}") && !Contains(template, "{file}")
    requires !Contains(template, "{line}") && !Contains(template, "{message}")
    ensures FormatMessage(template, errorType, file, lineno, message) == template
  {
    ReplaceWithoutMatch(template, "{type}", IntToString(errorType));
    ReplaceWithoutMatch(template, "{file}", file);
    ReplaceWithoutMatch(template, "{line}", Dec(lineno));
    ReplaceWithoutMatch(template, "{message}", message);
  }

  /** A brace-free template comes back unchanged, whatever is substituted. */
  lemma FormatBraceFree(template: string, errorType: I32, file: string, lineno: U32, message: string)
    requires '{' !in template
    ensures FormatMessage(template, errorType, file, lineno, message) == template
  {
    FourPlaceholders();
    PassBraceFree(template, "{type}", IntToString(errorType));
    PassBraceFree(template, "{file}", file);
    PassBraceFree(template, "{line}", Dec(lineno));
    PassBraceFree(template, "{message}", message);
  }

  /** A template holding `{message}` once, between brace-free text, yields
      that text around the message, whatever the message holds: the message
      is substituted last, so placeholders inside it stay as they are. */
  lemma FormatMessageOnly(a: string, e: string, errorType: I32, file: string, lineno: U32, message: string)
    requires '{' !in a && '{' !in e
    ensures FormatMessage(a + "{message}" + e, errorType, file, lineno, message) == a + message + e
  {
    var t := a + "{message}" + e;
    var ty, li := IntToString(errorType), Dec(lineno);
    FourPlaceholders();
    calc {
      FormatMessage(t, errorType, file, lineno, message);
      Replace(Replace(Replace(Replace(t, "{type}", ty), "{file}", file), "{line}", li), "{message}", message);
      { OtherFree(a, "{message}", e, "{type}"); PassAbsent(t, "{type}", ty); }
      Replace(Replace(Replace(t, "{file}", file), "{line}", li), "{message}", message);
      { OtherFree(a, "{message}", e, "{file}"); PassAbsent(t, "{file}", file); }
      Replace(Replace(t, "{line}", li), "{message}", message);
      { OtherFree(a, "{message}", e, "{line}"); PassAbsent(t, "{line}", li); }
      Replace(t, "{message}", message);
      { BraceFreeHasNone(e, "{message}"); ReplaceHole(a, "{message}", e, message); }
      a + message + e;
    }
  }

  /** A template holding `{type}` once, between brace-free text, shows the
      error type in decimal, with a `-` in front when it is negative. */
  lemma FormatTypeOnly(a: string, e: string, errorType: I32, file: string, lineno: U32, message: string)
    requires '{' !in a && '{' !in e
    ensures FormatMessage(a + "{type}" + e, errorType, file, lineno, message) == a + IntToString(errorType) + e
    ensures errorType < 0 ==> FormatMessage(a + "{type}" + e, errorType, file, lineno, message)[|a|] == '-'
  {
    var t := a + "{type}" + e;
    var ty, li := IntToString(errorType), Dec(lineno);
    var x := a + ty + e;
    FourPlaceholders();
    assert '{' !in x by {
      NumbersBraceFree(errorType, lineno);
      BraceFreeConcat(a, ty);
      BraceFreeConcat(a + ty, e);
    }
    calc {
      FormatMessage(t, errorType, file, lineno, message);
      Replace(Replace(Replace(Replace(t, "{type}", ty), "{file}", file), "{line}", li), "{message}", message);
      { BraceFreeHasNone(e, "{type}"); ReplaceHole(a, "{type}", e, ty); }
      Replace(Replace(Replace(x, "{file}", file), "{line}", li), "{message}", message);
      { PassBraceFree(x, "{file}", file); PassBraceFree(x, "{line}", li); PassBraceFree(x, "{message}", message); }
      x;
    }
    assert x[|a|] == ty[0];
  }

  /** A template holding each placeholder once, in the order of the passes,
      between brace-free text: each is replaced by its field. The
      message may hold anything; the file name must be brace-free, since
      the later passes would rewrite placeholders inside it. */
  lemma FormatAllFields(a: string, b: string, c: string, d: string, e: string,
                        errorType: I32, file: string, lineno: U32, message: string)
    requires '{' !in a && '{' !in b && '{' !in c && '{' !in d && '{' !in e && '{' !in file
    ensures FormatMessage(a + "{type}" + b + "{file}" + c + "{line}" + d + "{message}" + e, errorType, file, lineno, message)
      == a + IntToString(errorType) + b + file + c + Dec(lineno) + d + message + e
  {
    FourPlaceholders();
    NumbersBraceFree(errorType, lineno);
    var ty, li := IntToString(errorType), Dec(lineno);
    var s3 := d + "{message}" + e;
    var s2 := c + "{line}" + s3;
    var s1 := b + "{file}" + s2;
    assert IndexOf(e, "{message}") == None by { BraceFreeHasNone(e, "{message}"); }
    assert IndexOf(s3, "{line}") == None by {
      BraceFreeHasNone(e, "{line}");
      OtherAbsent(d, "{message}", e, "{line}");
    }
    assert IndexOf(s2, "{file}") == None by {
      BraceFreeHasNone(e, "{file}");
      OtherAbsent(d, "{message}", e, "{file}");
      OtherAbsent(c, "{line}", s3, "{file}");
    }
    assert IndexOf(s1, "{type}") == None by {
      BraceFreeHasNone(e, "{type}");
      OtherAbsent(d, "{message}", e, "{type}");
      OtherAbsent(c, "{line}", s3, "{type}");
      OtherAbsent(b, "{file}", s2, "{type}");
    }
    // {type}
    ConcatNestRight(a, "{type}", b, "{file}", c, "{line}", d, "{message}", e);
    ReplaceHole(a, "{type}", s1, ty);
    // {file}
    BraceFreeConcat(a, ty);
    BraceFreeConcat(a + ty, b);
    var p2 := a + ty + b;
    ConcatFlattenTail(a, ty, b, "{file}", s2);
    ReplaceHole(p2, "{file}", s2, file);
    // {line}
    BraceFreeConcat(p2, file);
    BraceFreeConcat(p2 + file, c);
    var p3 := p2 + file + c;
    ConcatFlattenTail(p2, file, c, "{line}", s3);
    ReplaceHole(p3, "{line}", s3, li);
    // {message}
    BraceFreeConcat(p3, li);
    BraceFreeConcat(p3 + li, d);
    var p4 := p3 + li + d;
    ConcatFlattenTail(p3, li, d, "{message}", e);
    ReplaceHole(p4, "{message}", e, message);
  }

  /** A concatenation of nine parts, regrouped so that each placeholder
      starts the text the later passes see. */
  lemma ConcatNestRight(a: string, t: string, b: string, f: string, c: string, l: string, d: string, m: string, e: string)
    ensures a + t + b + f + c + l + d + m + e == a + t + (b + f + (c + l + (d + m + e)))
  {
  }

  /** The nested tail of a concatenation, flattened again after a pass. */
  lemma ConcatFlattenTail(x: string, y: string, z: string, w: string, v: string)
    ensures x + y + (z + w + v) == x + y + z + w + v
  {
  }

  /** A file name is itself rewritten by the passes after `{file}`: a
      template that is just `{file}` yields the file name with its own
      `{line}` and `{message}` replaced. */
  lemma FormatFileRewritten(errorType: I32, file: string, lineno: U32, message: string)
    ensures FormatMessage("{file}", errorType, file, lineno, message)
      == Replace(Replace(file, "{line}", Dec(lineno)), "{message}", message)
  {
    var f, ty, li := "{file}", IntToString(errorType), Dec(lineno);
    assert Replace(f, "{type}", ty) == f by {
      FourPlaceholders();
      assert f == "" + f + "";
      OtherFree("", f, "", "{type}");
      PassAbsent(f, "{type}", ty);
    }
    assert Replace(f, f, file) == file by {
      FourPlaceholders();
      assert f == f + "";
      BraceFreeHasNone("", f);
      PassLeading(f, "", file);
      assert file + "" == file;
    }
  }

  /** A template that starts with `{message}`, followed by brace-free text,
      yields the message followed by that text. */
  lemma FormatMessageLeading(e: string, errorType: I32, file: string, lineno: U32, message: string)
    requires '{' !in e
    ensures FormatMessage("{message}" + e, errorType, file, lineno, message) == message + e
  {
    var m := "{message}";
    calc {
      FormatMessage(m + e, errorType, file, lineno, message);
      { assert m + e == [] + m + e; }
      FormatMessage([] + m + e, errorType, file, lineno, message);
      { FormatMessageOnly([], e, errorType, file, lineno, message); }
      [] + message + e;
      message + e;
    }
  }

  /** The example used by the extension's test: `{message} with an append`
      with the message `This is a test error`. */
  lemma FormatTestExample(template: string, message: string, errorType: I32, file: string, lineno: U32)
    requires template == "{message} with an append" && message == "This is a test error"
    ensures FormatMessage(template, errorType, file, lineno, message) == message + " with an append"
  {
    var e := " with an append";
    assert template == "{message}" + e && '{' !in e;
    FormatMessageLeading(e, errorType, file, lineno, message);
  }

  /** A file name that starts with `{line}` shows the line number in its
      place. */
  lemma FormatFileWithLine(rest: string, errorType: I32, lineno: U32, message: string)
    requires '{' !in rest
    ensures FormatMessage("{file}", errorType, "{line}" + rest, lineno, message) == Dec(lineno) + rest
  {
    var li := Dec(lineno);
    FourPlaceholders();
    calc {
      FormatMessage("{file}", errorType, "{line}" + rest, lineno, message);
      { FormatFileRewritten(errorType, "{line}" + rest, lineno, message); }
      Replace(Replace("{line}" + rest, "{line}", li), "{message}", message);
      { BraceFreeHasNone(rest, "{line}"); PassLeading("{line}", rest, li); }
      Replace(li + rest, "{message}", message);
      { NumbersBraceFree(errorType, lineno); BraceFreeConcat(li, rest); PassBraceFree(li + rest, "{message}", message); }
      li + rest;
    }
  }

  // Properties of the callback

  /** With no template in effect the saved original is called with every
      argument unchanged. */
  lemma InterceptPassesThrough(h: Handler, ini: map<string, Option<string>>,
                               errorType: I32, filename: FileName, lineno: U32, message: ZendString)
    requires FORMAT_KEY !in ini || ini[FORMAT_KEY] == None || ini[FORMAT_KEY] == Some("")
    ensures Intercept(Some(h), ini, errorType, filename, lineno, message) == Some(Call(h, errorType, filename, lineno, message))
  {
  }

  /** With a non-empty template in effect the saved original is called with
      the same type, file name and line, and the message the template makes
      of the decoded fields. */
  lemma InterceptFormats(h: Handler, ini: map<string, Option<string>>, template: string,
                         errorType: I32, filename: FileName, lineno: U32, message: ZendString)
    requires FORMAT_KEY in ini && ini[FORMAT_KEY] == Some(template) && template != ""
    ensures Intercept(Some(h), ini, errorType, filename, lineno, message)
      == Some(Call(h, errorType, filename, lineno,
                   Utf8(FormatMessage(template, errorType, DecodeFile(filename), lineno, DecodeZend(message)))))
  {
  }

  /** Without a saved original nothing is forwarded, on every path. */
  lemma InterceptWithoutOriginal(ini: map<string, Option<string>>,
                                 errorType: I32, filename: FileName, lineno: U32, message: ZendString)
    ensures Intercept(None, ini, errorType, filename, lineno, message) == None
  {
  }

  /** Null and undecodable fields read as empty text on the formatting
      path: formatting sees the same text as for an empty message or an
      empty file name. */
  lemma InterceptDecodesEmpty(h: Handler, ini: map<string, Option<string>>,
                              errorType: I32, lineno: U32, message: ZendString)
    requires FORMAT_KEY in ini && ini[FORMAT_KEY].Some? && ini[FORMAT_KEY].value != ""
    requires message == Null || message == Undecodable
    ensures Intercept(Some(h), ini, errorType, ZendFile(Null), lineno, message).value.message
      == Intercept(Some(h), ini, errorType, CFile(CChars("")), lineno, Utf8("")).value.message
    ensures Intercept(Some(h), ini, errorType, ZendFile(Undecodable), lineno, message).value.message
      == Intercept(Some(h), ini, errorType, CFile(CNull), lineno, Utf8("")).value.message
  {
  }

  /** A build for PHP 8.1 or later sets `php81`, which makes the callback
      take the file name as a `zend_string`; a build for PHP 8.0 does not,
      and the callback takes a C string. */
  lemma FileParameterLayout(g: ApiVersion)
    ensures RustcCfg(CfgName(Php81)) in BuildDirectives(g) <==> g != Php80
  {
    BuildDirectivesCfg(g, Php81);
  }
}
