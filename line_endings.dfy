/** The two line-ending regular expressions of Program.cs and what `Regex.Match` and
    `Regex.Replace` do with them.

    The source names them after the ending they look for, not the one they enforce:
    `UnixLineEndingRx` is `([^\r])\n` (a character other than CR, then LF) and is used to
    fix and to check the Windows convention; `WindowsLineEndingRx` is `\r\n` and is used
    to fix and to check the Unix convention. Here every name follows the convention that
    is being enforced.

    `Regex.Match` is the leftmost match; `Regex.Replace` scans left to right and, after a
    match, resumes right after it, so matches never overlap. Both are written below as
    explicit scans over the decoded text. */
module LineEndings {
  import opened Wrappers

  const CR: char := '\r'
  const LF: char := '\n'

  /** A match of `\r\n` starts at index i. */
  predicate CrLfAt(s: string, i: int) {
    0 <= i && i + 1 < |s| && s[i] == CR && s[i + 1] == LF
  }

  /** A match of `([^\r])\n` starts at index i: the captured character s[i] is not CR
      and is followed by LF. */
  predicate BareLfAt(s: string, i: int) {
    0 <= i && i + 1 < |s| && s[i] != CR && s[i + 1] == LF
  }

  // ---------------------------------------------------------------------------
  // Regex.Match: leftmost match at or after `from`
  // ---------------------------------------------------------------------------

  /** `WindowsLineEndingRx.Match(s)` started at `from`: the leftmost `\r\n`, if any. */
  function FindCrLf(s: string, from: nat): (r: Option<nat>)
    requires from <= |s|
    ensures r.Some? ==> from <= r.value && CrLfAt(s, r.value)
    ensures forall j :: from <= j && (r.None? || j < r.value) ==> !CrLfAt(s, j)
    decreases |s| - from
  {
    if from + 1 >= |s| then None
    else if CrLfAt(s, from) then Some(from)
    else FindCrLf(s, from + 1)
  }

  /** `UnixLineEndingRx.Match(s)` started at `from`: the leftmost non-CR character
      followed by LF, if any. */
  function FindBareLf(s: string, from: nat): (r: Option<nat>)
    requires from <= |s|
    ensures r.Some? ==> from <= r.value && BareLfAt(s, r.value)
    ensures forall j :: from <= j && (r.None? || j < r.value) ==> !BareLfAt(s, j)
    decreases |s| - from
  {
    if from + 1 >= |s| then None
    else if BareLfAt(s, from) then Some(from)
    else FindBareLf(s, from + 1)
  }

  // ---------------------------------------------------------------------------
  // The two checks of ValidateFile
  // ---------------------------------------------------------------------------

  /** The Unix check passes when `\r\n` has no match anywhere in the text. */
  function IsUnixValid(s: string): (ok: bool)
    ensures ok <==> forall i :: 0 <= i < |s| - 1 ==> !(s[i] == CR && s[i + 1] == LF)
  {
    var r := FindCrLf(s, 0);
    if r.Some? then
      assert s[r.value] == CR && s[r.value + 1] == LF;
      false
    else
      NoCrLfMatch(s);
      true
  }

  /** No match of `\r\n` from index 0 means no CR followed by LF. */
  lemma NoCrLfMatch(s: string)
    requires FindCrLf(s, 0).None?
    ensures forall i :: 0 <= i < |s| - 1 ==> !(s[i] == CR && s[i + 1] == LF)
  {
    forall i | 0 <= i < |s| - 1 ensures !(s[i] == CR && s[i + 1] == LF) {
      assert !CrLfAt(s, i);
    }
  }

  /** The Windows check passes when `([^\r])\n` has no match anywhere: every LF after
      the first character is preceded by CR. An LF at index 0 has no character for
      `[^\r]` to consume, so it never fails the check. */
  function IsWindowsValid(s: string): (ok: bool)
    ensures ok <==> forall i :: 1 <= i < |s| ==> !(s[i] == LF && s[i - 1] != CR)
  {
    var r := FindBareLf(s, 0);
    if r.Some? then
      assert s[r.value + 1] == LF && s[r.value + 1 - 1] != CR;
      false
    else
      NoBareLfMatch(s);
      true
  }

  /** No match of `([^\r])\n` from index 0 means no LF after a non-CR character. */
  lemma NoBareLfMatch(s: string)
    requires FindBareLf(s, 0).None?
    ensures forall i :: 1 <= i < |s| ==> !(s[i] == LF && s[i - 1] != CR)
  {
    forall i | 1 <= i < |s| ensures !(s[i] == LF && s[i - 1] != CR) {
      assert !BareLfAt(s, i - 1);
    }
  }

  /** A CR that ends the text, and so is followed by no LF, never makes either check
      fail: only the two patterns count as violations. */
  lemma {:induction false} TrailingCrIsHarmless(s: string)
    ensures IsUnixValid(s + [CR]) == IsUnixValid(s)
    ensures IsWindowsValid(s + [CR]) == IsWindowsValid(s)
  {
    var t := s + [CR];
    assert forall i :: 0 <= i < |s| ==> t[i] == s[i];
    if IsUnixValid(s) {
      forall i | 0 <= i < |t| - 1 ensures !(t[i] == CR && t[i + 1] == LF) {
        if i + 1 == |s| { assert t[i + 1] == CR; }
      }
    }
    if IsWindowsValid(s) {
      forall i | 1 <= i < |t| ensures !(t[i] == LF && t[i - 1] != CR) {
        if i == |s| { assert t[i] == CR; }
      }
    }
  }

  /** The checks of a text with one more character in front. */
  lemma ValidCons(c: char, t: string)
    ensures IsUnixValid([c] + t) <==> IsUnixValid(t) && !(c == CR && |t| > 0 && t[0] == LF)
    ensures IsWindowsValid([c] + t) <==> IsWindowsValid(t) && !(c != CR && |t| > 0 && t[0] == LF)
  {
    var s := [c] + t;
    assert forall i :: 0 <= i < |t| ==> s[i + 1] == t[i];
    if IsUnixValid(t) && !(c == CR && |t| > 0 && t[0] == LF) {
      forall i | 0 <= i < |s| - 1 ensures !(s[i] == CR && s[i + 1] == LF) {
        if i > 0 { assert s[i] == t[i - 1] && s[i + 1] == t[i]; }
      }
    }
    if IsWindowsValid(t) && !(c != CR && |t| > 0 && t[0] == LF) {
      forall i | 1 <= i < |s| ensures !(s[i] == LF && s[i - 1] != CR) {
        if i > 1 { assert s[i] == t[i - 1] && s[i - 1] == t[i - 2]; }
      }
    }
    if IsWindowsValid(s) {
      forall i | 1 <= i < |t| ensures !(t[i] == LF && t[i - 1] != CR) {
        assert s[i + 1] == t[i] && s[i] == t[i - 1];
      }
    }
  }

  // ---------------------------------------------------------------------------
  // Regex.Replace: the two fixes of FixFile
  // ---------------------------------------------------------------------------

  /** `WindowsLineEndingRx.Replace(s, "\n")`: every `\r\n` met by the left-to-right scan
      becomes `\n`. */
  function ToUnix(s: string): (r: string)
    ensures |r| <= |s|
    decreases |s|
  {
    if CrLfAt(s, 0) then [LF] + ToUnix(s[2..])
    else if s == [] then []
    else [s[0]] + ToUnix(s[1..])
  }

  /** `UnixLineEndingRx.Replace(s, "$1\r\n")`: every match of a non-CR character c
      followed by LF becomes c, CR, LF, and the scan resumes after the LF. */
  function ToWindows(s: string): (r: string)
    ensures |r| >= |s|
    ensures s != [] ==> r != [] && r[0] == s[0]
    decreases |s|
  {
    if BareLfAt(s, 0) then [s[0], CR, LF] + ToWindows(s[2..])
    else if s == [] then []
    else [s[0]] + ToWindows(s[1..])
  }

  // ---------------------------------------------------------------------------
  // Independent descriptions of the edits
  // ---------------------------------------------------------------------------

  /** The text with every CR removed. */
  function StripCr(s: string): (r: string)
    ensures CR !in r
    ensures forall c :: c in s && c != CR ==> c in r
    decreases |s|
  {
    if s == [] then []
    else if s[0] == CR then StripCr(s[1..])
    else [s[0]] + StripCr(s[1..])
  }

  /** t is s with zero or more CR characters inserted, each one immediately in front of
      an LF. */
  predicate InsertsCrBeforeLf(s: string, t: string)
    decreases |t|
  {
    if t == [] then s == []
    else
      (|t| >= 2 && t[0] == CR && t[1] == LF && InsertsCrBeforeLf(s, t[1..]))
      || (s != [] && s[0] == t[0] && InsertsCrBeforeLf(s[1..], t[1..]))
  }

  /** t is s with zero or more CR characters inserted, each one immediately in front of
      an LF of s that does not follow a CR of s; `prevIsCr` says whether the character
      before s is a CR, and is true at the start of the text so that an LF at index 0
      gets no CR. So an LF that already follows a CR never gets a second one. */
  predicate InsertsCrBeforeBareLf(s: string, t: string, prevIsCr: bool)
    decreases |t|
  {
    if t == [] then s == []
    else
      (|t| >= 2 && t[0] == CR && t[1] == LF && s != [] && s[0] == LF && !prevIsCr
       && InsertsCrBeforeBareLf(s, t[1..], true))
      || (s != [] && s[0] == t[0] && InsertsCrBeforeBareLf(s[1..], t[1..], s[0] == CR))
  }

  /** Inserting CRs leaves the text without CRs as it was. */
  lemma {:induction false} InsertsCrKeepsStripped(s: string, t: string)
    requires InsertsCrBeforeLf(s, t)
    ensures StripCr(s) == StripCr(t)
    decreases |t|
  {
    if t == [] {
    } else if |t| >= 2 && t[0] == CR && t[1] == LF && InsertsCrBeforeLf(s, t[1..]) {
      InsertsCrKeepsStripped(s, t[1..]);
    } else {
      InsertsCrKeepsStripped(s[1..], t[1..]);
    }
  }

  /** Number of indices at which `\r\n` starts. Two such pairs never overlap, so this is
      also the number of matches the replace scan makes. */
  function CountCrLf(s: string): nat
    decreases |s|
  {
    if |s| < 2 then 0
    else (if CrLfAt(s, 0) then 1 else 0) + CountCrLf(s[1..])
  }

  /** The text holds CR, CR, LF somewhere. */
  predicate HasCrCrLf(s: string) {
    exists i :: 0 <= i && i + 2 < |s| && s[i] == CR && s[i + 1] == CR && s[i + 2] == LF
  }

  /** The text holds two LFs in a row somewhere. */
  predicate HasLfLf(s: string) {
    exists i :: 0 <= i && i + 1 < |s| && s[i] == LF && s[i + 1] == LF
  }

  lemma HasCrCrLfCons(c: char, t: string)
    ensures HasCrCrLf([c] + t) <==> HasCrCrLf(t) || (c == CR && |t| >= 2 && t[0] == CR && t[1] == LF)
  {
    var s := [c] + t;
    if HasCrCrLf(s) {
      var i :| 0 <= i && i + 2 < |s| && s[i] == CR && s[i + 1] == CR && s[i + 2] == LF;
      if i > 0 { assert t[i - 1] == CR && t[i] == CR && t[i + 1] == LF; }
    }
    if HasCrCrLf(t) {
      var i :| 0 <= i && i + 2 < |t| && t[i] == CR && t[i + 1] == CR && t[i + 2] == LF;
      assert s[i + 1] == CR && s[i + 2] == CR && s[i + 3] == LF;
    }
    if c == CR && |t| >= 2 && t[0] == CR && t[1] == LF {
      assert s[0] == CR && s[1] == CR && s[2] == LF;
    }
  }

  lemma HasLfLfCons(c: char, t: string)
    ensures HasLfLf([c] + t) <==> HasLfLf(t) || (c == LF && |t| >= 1 && t[0] == LF)
  {
    var s := [c] + t;
    if HasLfLf(s) {
      var i :| 0 <= i && i + 1 < |s| && s[i] == LF && s[i + 1] == LF;
      if i > 0 { assert t[i - 1] == LF && t[i] == LF; }
    }
    if HasLfLf(t) {
      var i :| 0 <= i && i + 1 < |t| && t[i] == LF && t[i + 1] == LF;
      assert s[i + 1] == LF && s[i + 2] == LF;
    }
    if c == LF && |t| >= 1 && t[0] == LF {
      assert s[0] == LF && s[1] == LF;
    }
  }

  // ---------------------------------------------------------------------------
  // What the Unix fix guarantees
  // ---------------------------------------------------------------------------

  /** The Unix fix only deletes CRs, and only CRs that stand right before an LF. */
  lemma {:induction false} ToUnixDeletesCrBeforeLf(s: string)
    ensures InsertsCrBeforeLf(ToUnix(s), s)
    decreases |s|
  {
    if CrLfAt(s, 0) {
      ToUnixDeletesCrBeforeLf(s[2..]);
      var u := ToUnix(s[2..]);
      assert s[1..][1..] == s[2..];
      assert InsertsCrBeforeLf([LF] + u, s[1..]);
    } else if s != [] {
      ToUnixDeletesCrBeforeLf(s[1..]);
      assert ([s[0]] + ToUnix(s[1..]))[1..] == ToUnix(s[1..]);
    }
  }

  /** Removing every CR from the input and from the output of the Unix fix gives the
      same text. */
  lemma ToUnixKeepsStripped(s: string)
    ensures StripCr(ToUnix(s)) == StripCr(s)
  {
    ToUnixDeletesCrBeforeLf(s);
    InsertsCrKeepsStripped(ToUnix(s), s);
  }

  /** A text that already passes the Unix check comes back unchanged. */
  lemma {:induction false} ToUnixKeepsValidText(s: string)
    requires IsUnixValid(s)
    ensures ToUnix(s) == s
    decreases |s|
  {
    if s != [] {
      ValidCons(s[0], s[1..]);
      assert [s[0]] + s[1..] == s;
      ToUnixKeepsValidText(s[1..]);
    }
  }

  /** The Unix fix shortens the text by one character per `\r\n` pair. */
  lemma {:induction false} ToUnixLength(s: string)
    ensures |ToUnix(s)| == |s| - CountCrLf(s)
    decreases |s|
  {
    if CrLfAt(s, 0) {
      ToUnixLength(s[2..]);
      assert !CrLfAt(s[1..], 0);
      assert s[1..][1..] == s[2..];
    } else if s != [] {
      ToUnixLength(s[1..]);
    }
  }

  /** The first character of the Unix fix's output. */
  lemma ToUnixHead(s: string)
    requires s != []
    ensures ToUnix(s) != []
    ensures ToUnix(s)[0] == LF <==> s[0] == LF || CrLfAt(s, 0)
  {
  }

  /** One pass of the Unix fix does not always pass the Unix check: its output holds
      `\r\n` exactly when the input held CR, CR, LF, whose second CR and LF the scan
      merges into one LF after the first CR. */
  lemma {:induction false} ToUnixValidUnlessCrCrLf(s: string)
    ensures IsUnixValid(ToUnix(s)) <==> !HasCrCrLf(s)
    decreases |s|
  {
    if CrLfAt(s, 0) {
      var rest := s[2..];
      ToUnixValidUnlessCrCrLf(rest);
      ValidCons(LF, ToUnix(rest));
      HasCrCrLfCons(s[1], rest);
      HasCrCrLfCons(s[0], s[1..]);
      assert [s[1]] + rest == s[1..];
      assert [s[0]] + s[1..] == s;
    } else if s != [] {
      var rest := s[1..];
      ToUnixValidUnlessCrCrLf(rest);
      ValidCons(s[0], ToUnix(rest));
      HasCrCrLfCons(s[0], rest);
      assert [s[0]] + rest == s;
      if rest != [] { ToUnixHead(rest); }
    }
  }

  // ---------------------------------------------------------------------------
  // What the Windows fix guarantees
  // ---------------------------------------------------------------------------

  /** The Windows fix only inserts CRs, each one right before an LF. */
  lemma {:induction false} ToWindowsInsertsCrBeforeLf(s: string)
    ensures InsertsCrBeforeLf(s, ToWindows(s))
    decreases |s|
  {
    if BareLfAt(s, 0) {
      ToWindowsInsertsCrBeforeLf(s[2..]);
      var w := ToWindows(s[2..]);
      var t := [s[0], CR, LF] + w;
      assert t[1..][1..] == [LF] + w;
      assert s[1..][1..] == s[2..];
      assert ([LF] + w)[1..] == w;
      assert InsertsCrBeforeLf(s[1..], [LF] + w);
      assert InsertsCrBeforeLf(s[1..], t[1..]);
    } else if s != [] {
      ToWindowsInsertsCrBeforeLf(s[1..]);
      assert ([s[0]] + ToWindows(s[1..]))[1..] == ToWindows(s[1..]);
    }
  }

  /** No double conversion: the Windows fix inserts a CR only in front of an LF whose
      preceding input character is not a CR, and never in front of an LF at index 0, so
      an existing `\r\n` is never turned into `\r\r\n`. */
  lemma ToWindowsConvertsOnlyBareLf(s: string)
    ensures InsertsCrBeforeBareLf(s, ToWindows(s), true)
  {
    ToWindowsInsertsCrBeforeBareLf(s, true);
  }

  lemma {:induction false} ToWindowsInsertsCrBeforeBareLf(s: string, prevIsCr: bool)
    ensures InsertsCrBeforeBareLf(s, ToWindows(s), prevIsCr)
    decreases |s|
  {
    if BareLfAt(s, 0) {
      var w := ToWindows(s[2..]);
      ToWindowsInsertsCrBeforeBareLf(s[2..], false);
      var t := [s[0], CR, LF] + w;
      assert s[1..][1..] == s[2..];
      assert ([LF] + w)[1..] == w;
      assert InsertsCrBeforeBareLf(s[1..], [LF] + w, true);
      assert t[1..][1..] == [LF] + w;
      assert InsertsCrBeforeBareLf(s[1..], t[1..], false);
    } else if s != [] {
      ToWindowsInsertsCrBeforeBareLf(s[1..], s[0] == CR);
      assert ([s[0]] + ToWindows(s[1..]))[1..] == ToWindows(s[1..]);
    }
  }

  /** Removing every CR from the input and from the output of the Windows fix gives the
      same text. */
  lemma ToWindowsKeepsStripped(s: string)
    ensures StripCr(ToWindows(s)) == StripCr(s)
  {
    ToWindowsInsertsCrBeforeLf(s);
    InsertsCrKeepsStripped(s, ToWindows(s));
  }

  /** A text that already passes the Windows check comes back unchanged. */
  lemma {:induction false} ToWindowsKeepsValidText(s: string)
    requires IsWindowsValid(s)
    ensures ToWindows(s) == s
    decreases |s|
  {
    if s != [] {
      ValidCons(s[0], s[1..]);
      assert [s[0]] + s[1..] == s;
      ToWindowsKeepsValidText(s[1..]);
    }
  }

  /** The Windows fix keeps the first character, and the second one too when the first
      is CR. */
  lemma ToWindowsHead(s: string)
    requires s != []
    ensures ToWindows(s) != [] && ToWindows(s)[0] == s[0]
    ensures |s| >= 2 && s[0] == CR ==> |ToWindows(s)| >= 2 && ToWindows(s)[1] == s[1]
    ensures |s| == 1 ==> ToWindows(s) == s
  {
    if |s| >= 2 && s[0] == CR {
      var t := s[1..];
      assert t != [];
      assert ToWindows(s) == [CR] + ToWindows(t);
      if BareLfAt(t, 0) {
      } else {
        assert ToWindows(t) == [t[0]] + ToWindows(t[1..]);
      }
    }
  }

  /** No double conversion: the Windows fix never produces a CR, CR, LF that was not in
      its input, and keeps every one that was; an existing `\r\n` never becomes
      `\r\r\n`. */
  lemma {:induction false} ToWindowsNoDoubleCr(s: string)
    ensures HasCrCrLf(ToWindows(s)) <==> HasCrCrLf(s)
    decreases |s|
  {
    if BareLfAt(s, 0) {
      var rest := s[2..];
      var w := ToWindows(rest);
      ToWindowsNoDoubleCr(rest);
      HasCrCrLfCons(LF, w);
      HasCrCrLfCons(CR, [LF] + w);
      HasCrCrLfCons(s[0], [CR, LF] + w);
      assert [s[0], CR, LF] + w == [s[0]] + ([CR] + ([LF] + w));
      assert [CR, LF] + w == [CR] + ([LF] + w);
      HasCrCrLfCons(s[1], rest);
      HasCrCrLfCons(s[0], s[1..]);
      assert [s[1]] + rest == s[1..];
      assert [s[0]] + s[1..] == s;
    } else if s != [] {
      var rest := s[1..];
      ToWindowsNoDoubleCr(rest);
      HasCrCrLfCons(s[0], ToWindows(rest));
      HasCrCrLfCons(s[0], rest);
      assert [s[0]] + rest == s;
      if rest != [] { ToWindowsHead(rest); }
    }
  }

  /** One pass of the Windows fix passes the Windows check whenever the input has no two
      LFs in a row. (With two LFs in a row it need not: see `ToWindowsMissesSecondLf`.) */
  lemma {:induction false} ToWindowsValidWithoutLfLf(s: string)
    requires !HasLfLf(s)
    ensures IsWindowsValid(ToWindows(s))
    decreases |s|
  {
    if BareLfAt(s, 0) {
      var rest := s[2..];
      var w := ToWindows(rest);
      HasLfLfCons(s[1], rest);
      HasLfLfCons(s[0], s[1..]);
      assert [s[1]] + rest == s[1..];
      assert [s[0]] + s[1..] == s;
      ToWindowsValidWithoutLfLf(rest);
      if rest != [] { ToWindowsHead(rest); }
      ValidCons(LF, w);
      ValidCons(CR, [LF] + w);
      ValidCons(s[0], [CR, LF] + w);
      assert [s[0], CR, LF] + w == [s[0]] + ([CR] + ([LF] + w));
      assert [CR, LF] + w == [CR] + ([LF] + w);
    } else if s != [] {
      var rest := s[1..];
      HasLfLfCons(s[0], rest);
      assert [s[0]] + rest == s;
      ToWindowsValidWithoutLfLf(rest);
      if rest != [] { ToWindowsHead(rest); }
      ValidCons(s[0], ToWindows(rest));
    }
  }

  // ---------------------------------------------------------------------------
  // Concrete cases
  // ---------------------------------------------------------------------------

  /** A mixed text: the Unix fix merges both pairs, the Windows fix converts only the bare
      LF; the checks see what they should. */
  lemma MixedText()
    ensures ToUnix("a\r\nb\nc\r\n") == "a\nb\nc\n"
    ensures ToWindows("a\r\nb\nc\r\n") == "a\r\nb\r\nc\r\n"
    ensures !IsUnixValid("a\r\nb") && IsUnixValid("a\nb")
    ensures !IsWindowsValid("a\nb") && IsWindowsValid("a\r\nb")
  {
    assert ToUnix("c\r\n") == "c\n";
    assert ToUnix("b\nc\r\n") == "b\nc\n";
    assert ToUnix("\r\nb\nc\r\n") == "\nb\nc\n";
    assert ToWindows("c\r\n") == "c\r\n";
    assert ToWindows("b\nc\r\n") == "b\r\nc\r\n";
    assert ToWindows("\r\nb\nc\r\n") == "\r\nb\r\nc\r\n";
    assert CrLfAt("a\r\nb", 1);
    assert BareLfAt("a\nb", 0);
  }

  /** The Unix fix is not idempotent: CR, CR, LF needs two passes. */
  lemma ToUnixNeedsTwoPasses()
    ensures ToUnix("\r\r\n") == "\r\n"
    ensures ToUnix(ToUnix("\r\r\n")) == "\n"
    ensures !IsUnixValid(ToUnix("\r\r\n"))
  {
    assert CrLfAt("\r\n", 0);
  }

  /** The Windows fix is not idempotent: the scan consumes the LF it converts, so it
      cannot use that LF as the preceding character of a second LF right after it. */
  lemma ToWindowsMissesSecondLf()
    ensures ToWindows("a\n\n") == "a\r\n\n"
    ensures ToWindows(ToWindows("a\n\n")) == "a\r\n\r\n"
    ensures !IsWindowsValid(ToWindows("a\n\n"))
  {
    assert BareLfAt("a\r\n\n", 2);
  }

  /** An LF at index 0 has no preceding character: the Windows fix and the Windows check
      treat it as they would treat the LF of a leading `\r\n`. It is kept in place
      without a CR, and it is never a violation. */
  lemma LeadingLfIsUntouched(t: string)
    ensures ToWindows([LF] + t)[0] == LF
    ensures ToWindows([CR, LF] + t) == [CR] + ToWindows([LF] + t)
    ensures IsWindowsValid([LF] + t) <==> IsWindowsValid([CR, LF] + t)
  {
    var s := [CR, LF] + t;
    assert s[1..] == [LF] + t;
    assert !BareLfAt(s, 0);
    ValidCons(CR, [LF] + t);
    ValidCons(LF, t);
  }
}
