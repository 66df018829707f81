/** The string operations of Rust's `str` that the build script and the
    extension are built from: leftmost substring search, `split` and
    `replace` with a non-empty `&str` pattern, and `lines`. A Rust `&str` is
    modelled as a Dafny `string`; every pattern the build script and the
    extension search for is ASCII, so searching by characters finds the same
    matches as Rust's search by bytes. */
module Text {
  import opened Wrappers

  /** `pat` occurs in `s` starting at index `i`. */
  predicate OccursAt(s: string, pat: string, i: nat) {
    i + |pat| <= |s| && s[i..i + |pat|] == pat
  }

  predicate Contains(s: string, pat: string) {
    exists i: nat | i <= |s| :: OccursAt(s, pat, i)
  }

  lemma OccursAtShift(s: string, pat: string, j: nat)
    requires |s| >= 1
    ensures OccursAt(s[1..], pat, j) <==> OccursAt(s, pat, j + 1)
  {
    if j + |pat| <= |s[1..]| {
      assert s[1..][j..j + |pat|] == s[j + 1..j + 1 + |pat|];
    }
  }

  lemma OccursInPrefix(s: string, pat: string, n: nat, j: nat)
    requires n <= |s|
    requires OccursAt(s[..n], pat, j)
    ensures OccursAt(s, pat, j)
  {
    assert s[..n][j..j + |pat|] == s[j..j + |pat|];
  }

  /** The leftmost occurrence of `pat` in `s`, as `str::find` reports it. */
  function IndexOf(s: string, pat: string): (r: Option<nat>)
    ensures r.Some? ==> OccursAt(s, pat, r.value)
    decreases |s|
  {
    if |s| < |pat| then None
    else if s[..|pat|] == pat then Some(0)
    else
      match IndexOf(s[1..], pat)
      case None => None
      case Some(i) =>
        OccursAtShift(s, pat, i);
        Some(i + 1)
  }

  /** The occurrence `IndexOf` reports is the leftmost one, and it reports
      one whenever `pat` occurs at all. */
  lemma {:induction false} IndexOfLeftmost(s: string, pat: string)
    ensures IndexOf(s, pat).Some? ==> forall j: nat :: j < IndexOf(s, pat).value ==> !OccursAt(s, pat, j)
    ensures IndexOf(s, pat).None? ==> forall j: nat :: !OccursAt(s, pat, j)
    decreases |s|
  {
    if |s| >= |pat| && s[..|pat|] != pat {
      IndexOfLeftmost(s[1..], pat);
      forall j: nat | j >= 1 ensures OccursAt(s, pat, j) <==> OccursAt(s[1..], pat, j - 1) {
        OccursAtShift(s, pat, j - 1);
      }
      assert !OccursAt(s, pat, 0);
    }
  }

  /** An occurrence with none before it is the one `IndexOf` reports. */
  lemma IndexOfFirst(s: string, pat: string, i: nat)
    requires OccursAt(s, pat, i)
    requires forall j: nat :: j < i ==> !OccursAt(s, pat, j)
    ensures IndexOf(s, pat) == Some(i)
  {
    IndexOfLeftmost(s, pat);
  }

  /** `s.contains(pat)` is `s.find(pat).is_some()`. */
  lemma ContainsIndexOf(s: string, pat: string)
    ensures Contains(s, pat) <==> IndexOf(s, pat).Some?
  {
    IndexOfLeftmost(s, pat);
    if IndexOf(s, pat).Some? {
      assert OccursAt(s, pat, IndexOf(s, pat).value);
    }
  }

  /** `s.split(sep).collect::<Vec<_>>()`: the pieces between consecutive
      leftmost, non-overlapping occurrences of `sep`. */
  function Split(s: string, sep: string): (r: seq<string>)
    requires sep != []
    ensures |r| >= 1
    decreases |s|
  {
    match IndexOf(s, sep)
    case None => [s]
    case Some(i) => [s[..i]] + Split(s[i + |sep|..], sep)
  }

  /** A pattern whose first character does not occur in `s` does not occur
      in `s`. */
  lemma AbsentWhenHeadAbsent(s: string, pat: string)
    requires pat != [] && pat[0] !in s
    ensures IndexOf(s, pat) == None
  {
    forall j: nat ensures !OccursAt(s, pat, j) {
      if j + |pat| <= |s| {
        assert s[j..j + |pat|][0] == s[j];
      }
    }
  }

  /** `split` yields more than one piece exactly when the separator occurs,
      and no piece contains the separator. */
  lemma {:induction false} SplitPieces(s: string, sep: string)
    requires sep != []
    ensures |Split(s, sep)| > 1 <==> Contains(s, sep)
    ensures forall k :: 0 <= k < |Split(s, sep)| ==> !Contains(Split(s, sep)[k], sep)
    decreases |s|
  {
    match IndexOf(s, sep)
    case None =>
      ContainsIndexOf(s, sep);
    case Some(i) =>
      var rest := s[i + |sep|..];
      var tail := Split(rest, sep);
      SplitUnfold(s, sep, i);
      assert Contains(s, sep) by {
        ContainsIndexOf(s, sep);
      }
      assert !Contains(s[..i], sep) by {
        IndexOfLeftmost(s, sep);
        forall j: nat | OccursAt(s[..i], sep, j) ensures false {
          OccursInPrefix(s, sep, i, j);
        }
      }
      assert forall k :: 0 <= k < |tail| ==> !Contains(tail[k], sep) by {
        SplitPieces(rest, sep);
      }
      forall k | 0 <= k < |Split(s, sep)| ensures !Contains(Split(s, sep)[k], sep) {
        if k > 0 {
          assert Split(s, sep)[k] == tail[k - 1];
        }
      }
  }

  /** `parts.join(sep)`. */
  function Join(parts: seq<string>, sep: string): string
    decreases |parts|
  {
    if |parts| == 0 then ""
    else if |parts| == 1 then parts[0]
    else parts[0] + sep + Join(parts[1..], sep)
  }

  lemma JoinCons(x: string, parts: seq<string>, sep: string)
    requires parts != []
    ensures Join([x] + parts, sep) == x + sep + Join(parts, sep)
  {
    assert ([x] + parts)[1..] == parts;
  }

  /** Splitting and joining with the same separator gives back the input. */
  lemma {:induction false} JoinSplit(s: string, sep: string)
    requires sep != []
    ensures Join(Split(s, sep), sep) == s
    decreases |s|
  {
    match IndexOf(s, sep)
    case None =>
    case Some(i) =>
      var rest := s[i + |sep|..];
      JoinSplit(rest, sep);
      SplitUnfold(s, sep, i);
      JoinCons(s[..i], Split(rest, sep), sep);
      Decompose(s, sep, i);
  }

  /** A text is the part before an occurrence, the occurrence and the part
      after it. */
  lemma Decompose(s: string, pat: string, i: nat)
    requires OccursAt(s, pat, i)
    ensures s == s[..i] + pat + s[i + |pat|..]
  {
  }

  /** The first piece of `split` runs up to the first occurrence of `sep`,
      or to the end when there is none. */
  lemma FirstPiece(t: string, sep: string)
    requires sep != []
    ensures var v := Split(t, sep)[0];
      && |v| <= |t| && t[..|v|] == v
      && (|v| == |t| || OccursAt(t, sep, |v|))
  {
    match IndexOf(t, sep)
    case None =>
    case Some(k) =>
  }

  lemma SplitUnfold(s: string, sep: string, i: nat)
    requires sep != [] && IndexOf(s, sep) == Some(i)
    ensures Split(s, sep) == [s[..i]] + Split(s[i + |sep|..], sep)
  {
  }

  /** The second piece of `split`, as `components[1]` when there are at least
      two: the first piece of the text after the first occurrence of `sep`
      (which `FirstPiece` describes). It never contains `sep`. */
  lemma SecondPiece(s: string, sep: string)
    requires sep != [] && IndexOf(s, sep).Some?
    ensures |Split(s, sep)| > 1
    ensures Split(s, sep)[1] == Split(s[IndexOf(s, sep).value + |sep|..], sep)[0]
    ensures !Contains(Split(s, sep)[1], sep)
  {
    var i := IndexOf(s, sep).value;
    var rest := s[i + |sep|..];
    SplitUnfold(s, sep, i);
    var parts := Split(rest, sep);
    assert ([s[..i]] + parts)[1] == parts[0];
    assert !Contains(parts[0], sep) by {
      SplitPieces(rest, sep);
    }
  }

  /** A text that starts with the separator, which does not occur again,
      splits into an empty piece and the rest. */
  lemma SplitLeading(sep: string, rest: string)
    requires sep != [] && IndexOf(rest, sep) == None
    ensures Split(sep + rest, sep) == ["", rest]
  {
    var s := sep + rest;
    assert s[..|sep|] == sep;
    SplitUnfold(s, sep, 0);
    assert s[|sep|..] == rest;
  }

  /** `s.replace(from, to)`: every leftmost, non-overlapping occurrence of
      `from` replaced by `to`, in one left-to-right pass. */
  function Replace(s: string, from: string, to: string): string
    requires from != []
    decreases |s|
  {
    match IndexOf(s, from)
    case None => s
    case Some(i) => s[..i] + to + Replace(s[i + |from|..], from, to)
  }

  /** A text without the pattern comes back unchanged. */
  lemma ReplaceWithoutMatch(s: string, from: string, to: string)
    requires from != [] && !Contains(s, from)
    ensures Replace(s, from, to) == s
  {
    ContainsIndexOf(s, from);
  }

  lemma ReplaceUnfold(s: string, from: string, to: string, i: nat)
    requires from != [] && IndexOf(s, from) == Some(i)
    ensures Replace(s, from, to) == s[..i] + to + Replace(s[i + |from|..], from, to)
  {
  }

  /** `replace` agrees with splitting at the pattern and joining with the
      replacement, an independent statement of the same operation. */
  lemma {:induction false} ReplaceIsSplitJoin(s: string, from: string, to: string)
    requires from != []
    ensures Replace(s, from, to) == Join(Split(s, from), to)
    decreases |s|
  {
    match IndexOf(s, from)
    case None =>
    case Some(i) =>
      var rest := s[i + |from|..];
      ReplaceIsSplitJoin(rest, from, to);
      ReplaceUnfold(s, from, to, i);
      SplitUnfold(s, from, i);
      JoinCons(s[..i], Split(rest, from), to);
  }

  /** One replacement step, for a text whose first occurrence of `from`
      follows `a`. */
  lemma ReplaceStep(a: string, from: string, b: string, to: string)
    requires from != []
    requires forall j: nat :: j < |a| ==> !OccursAt(a + from + b, from, j)
    ensures Replace(a + from + b, from, to) == a + to + Replace(b, from, to)
  {
    var s := a + from + b;
    assert s[|a|..|a| + |from|] == from;
    assert OccursAt(s, from, |a|);
    IndexOfFirst(s, from, |a|);
    assert s[..|a|] == a && s[|a| + |from|..] == b;
  }

  /** A line as `str::lines` yields it: one `\r` is dropped before a `\n`. */
  function StripCr(line: string): string {
    if |line| > 0 && line[|line| - 1] == '\r' then line[..|line| - 1] else line
  }

  lemma NoNewlineBefore(s: string, i: nat)
    requires i <= |s|
    requires forall j: nat :: j < i ==> !OccursAt(s, "\n", j)
    ensures '\n' !in s[..i]
  {
    forall j | 0 <= j < i ensures s[j] != '\n' {
      assert !OccursAt(s, "\n", j);
      assert s[j..j + 1] == [s[j]];
    }
  }

  /** `s.lines()`: the text split at `\n` (an optional `\r` before it is
      dropped), without an empty line after a final `\n`. */
  function Lines(s: string): (r: seq<string>)
    ensures forall k :: 0 <= k < |r| ==> '\n' !in r[k]
    decreases |s|
  {
    if s == [] then []
    else
      IndexOfLeftmost(s, "\n");
      match IndexOf(s, "\n")
      case None =>
        NoNewlineBefore(s, |s|);
        assert s[..|s|] == s;
        [s]
      case Some(i) =>
        NoNewlineBefore(s, i);
        [StripCr(s[..i])] + Lines(s[i + 1..])
  }

  /** A text made of a line and a `\n` followed by more text yields that line
      first and then the lines of the rest. */
  lemma {:induction false} LinesCons(a: string, b: string)
    requires '\n' !in a
    ensures Lines(a + "\n" + b) == [StripCr(a)] + Lines(b)
  {
    var s := a + "\n" + b;
    assert OccursAt(s, "\n", |a|) by { assert s[|a|..|a| + 1] == "\n"; }
    forall j: nat | j < |a| ensures !OccursAt(s, "\n", j) {
      assert s[j..j + 1] == [a[j]];
    }
    IndexOfFirst(s, "\n", |a|);
    assert s[..|a|] == a && s[|a| + 1..] == b;
  }

  /** The first line of a text is yielded as it is when it holds no `\n`
      and does not end in `\r`. */
  lemma LinesFirst(line: string, rest: string)
    requires '\n' !in line && line != [] && line[|line| - 1] != '\r'
    ensures Lines(line + "\n" + rest) != [] && Lines(line + "\n" + rest)[0] == line
  {
    LinesCons(line, rest);
  }

  /** The last line, when it has no `\n` after it, is kept as it is. */
  lemma LinesLast(a: string)
    requires a != [] && '\n' !in a
    ensures Lines(a) == [a]
  {
    forall j: nat | j < |a| ensures !OccursAt(a, "\n", j) {
      assert a[j..j + 1] == [a[j]];
    }
    ContainsIndexOf(a, "\n");
  }
}
