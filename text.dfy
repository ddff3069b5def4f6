/** The per-cell string operations of the script: Python's `str.strip()` (applied to
    every line of the DoT and DNS address lists) and `str.replace(pat, rep)` (applied
    with `"time="` and `""` to every ping cell). */
module Text {

  // ---------------------------------------------------------------------------
  // str.strip()
  // ---------------------------------------------------------------------------

  /** The characters for which Python's `str.isspace()` holds: the ASCII controls
      TAB, LF, VT, FF, CR, the separators 0x1C-0x1F, SPACE, and the Unicode
      spaces and line/paragraph separators. `strip()` with no argument removes these. */
  predicate IsWhitespace(c: char): (b: bool)
    ensures c == ' ' || c == '\t' || c == '\n' || c == '\r' ==> b
    ensures ('0' <= c <= '9' || 'a' <= c <= 'z' || 'A' <= c <= 'Z' || c == '.' || c == ':') ==> !b
    ensures c == '\U{200B}' ==> !b
  {
    ('\t' <= c <= '\r') || ('\U{1C}' <= c <= '\U{1F}') || c == ' '
    || c == '\U{85}' || c == '\U{A0}' || c == '\U{1680}'
    || ('\U{2000}' <= c <= '\U{200A}')
    || c == '\U{2028}' || c == '\U{2029}' || c == '\U{202F}' || c == '\U{205F}'
    || c == '\U{3000}'
  }

  /** Python's `s.strip()`: `s` without its leading and trailing whitespace,
      removed one character at a time from either end. */
  function Strip(s: string): (r: string)
    ensures |r| <= |s|
    ensures |r| > 0 ==> !IsWhitespace(r[0]) && !IsWhitespace(r[|r| - 1])
    decreases |s|
  {
    if |s| > 0 && IsWhitespace(s[0]) then Strip(s[1..])
    else if |s| > 0 && IsWhitespace(s[|s| - 1]) then Strip(s[..|s| - 1])
    else s
  }

  /** A slice `s[i..j]` is a stripped form of `s` when everything outside it is
      whitespace and it neither starts nor ends with whitespace. */
  ghost predicate IsStrippedSlice(s: string, i: nat, j: nat) {
    && i <= j <= |s|
    && (forall k :: 0 <= k < i ==> IsWhitespace(s[k]))
    && (forall k :: j <= k < |s| ==> IsWhitespace(s[k]))
    && (i < j ==> !IsWhitespace(s[i]) && !IsWhitespace(s[j - 1]))
  }

  /** A stripped slice of `s[1..]` is one of `s` too, one place further on,
      when `s` starts with whitespace. */
  lemma SliceAfterFirst(s: string, i: nat, j: nat)
    requires |s| > 0 && IsWhitespace(s[0])
    requires IsStrippedSlice(s[1..], i, j)
    ensures IsStrippedSlice(s, i + 1, j + 1) && s[1..][i..j] == s[i + 1..j + 1]
  {
    assert forall k :: 1 <= k < |s| ==> s[k] == s[1..][k - 1];
  }

  /** A stripped slice of `s` without its last character is one of `s` too,
      when that character is whitespace. */
  lemma SliceBeforeLast(s: string, i: nat, j: nat)
    requires |s| > 0 && IsWhitespace(s[|s| - 1])
    requires IsStrippedSlice(s[..|s| - 1], i, j)
    ensures IsStrippedSlice(s, i, j) && s[..|s| - 1][i..j] == s[i..j]
  {
    assert forall k :: 0 <= k < |s| - 1 ==> s[k] == s[..|s| - 1][k];
  }

  /** The bounds of the slice `Strip(s)` keeps. */
  lemma {:induction false} StripBounds(s: string) returns (i: nat, j: nat)
    ensures IsStrippedSlice(s, i, j) && Strip(s) == s[i..j]
    decreases |s|
  {
    if |s| > 0 && IsWhitespace(s[0]) {
      var i', j' := StripBounds(s[1..]);
      SliceAfterFirst(s, i', j');
      i, j := i' + 1, j' + 1;
    } else if |s| > 0 && IsWhitespace(s[|s| - 1]) {
      i, j := StripBounds(s[..|s| - 1]);
      SliceBeforeLast(s, i, j);
    } else {
      i, j := 0, |s|;
      assert s[0..|s|] == s;
    }
  }

  /** `Strip(s)` is a contiguous slice of `s` from which only surrounding
      whitespace was removed. */
  lemma StripIsSlice(s: string)
    ensures exists i: nat, j: nat :: IsStrippedSlice(s, i, j) && Strip(s) == s[i..j]
  {
    var i, j := StripBounds(s);
  }

  /** Conversely, a stripped slice of `s` is one of `s[1..]`, one place back,
      when `s` starts with whitespace; an empty one at the front becomes the
      empty one at the front. */
  lemma SliceInRest(s: string, i: nat, j: nat)
    requires |s| > 0 && IsWhitespace(s[0])
    requires IsStrippedSlice(s, i, j)
    ensures i == 0 ==> j == 0 && IsStrippedSlice(s[1..], 0, 0)
    ensures i > 0 ==> IsStrippedSlice(s[1..], i - 1, j - 1) && s[1..][i - 1..j - 1] == s[i..j]
  {
    assert forall k :: 1 <= k < |s| ==> s[k] == s[1..][k - 1];
  }

  /** A stripped slice of `s` is one of `s` without its last character, when
      that character is whitespace and the first is not. */
  lemma SliceInFront(s: string, i: nat, j: nat)
    requires |s| > 0 && !IsWhitespace(s[0]) && IsWhitespace(s[|s| - 1])
    requires IsStrippedSlice(s, i, j)
    ensures j < |s| && IsStrippedSlice(s[..|s| - 1], i, j) && s[..|s| - 1][i..j] == s[i..j]
  {
    assert forall k :: 0 <= k < |s| - 1 ==> s[k] == s[..|s| - 1][k];
  }

  /** The stripped slice is unique, so any slice with whitespace-only margins
      and non-whitespace ends is what `strip()` returns. */
  lemma {:induction false} StripUnique(s: string, i: nat, j: nat)
    requires IsStrippedSlice(s, i, j)
    ensures Strip(s) == s[i..j]
    decreases |s|
  {
    if |s| > 0 && IsWhitespace(s[0]) {
      SliceInRest(s, i, j);
      if i == 0 {
        StripUnique(s[1..], 0, 0);
      } else {
        StripUnique(s[1..], i - 1, j - 1);
      }
    } else if |s| > 0 && IsWhitespace(s[|s| - 1]) {
      SliceInFront(s, i, j);
      StripUnique(s[..|s| - 1], i, j);
    } else if |s| > 0 {
      assert i == 0 && j == |s|;
      assert s[0..|s|] == s;
    }
  }

  /** Stripping twice changes nothing. */
  lemma StripIdempotent(s: string)
    ensures Strip(Strip(s)) == Strip(s)
  {
    var r := Strip(s);
    StripUnique(r, 0, |r|);
    assert r[0..|r|] == r;
  }

  /** A line strips to the empty string exactly when it is all whitespace
      (the empty line and the bare `"\n"` included). */
  lemma StripEmptyIff(s: string)
    ensures Strip(s) == "" <==> forall k :: 0 <= k < |s| ==> IsWhitespace(s[k])
  {
    if forall k :: 0 <= k < |s| ==> IsWhitespace(s[k]) {
      StripUnique(s, |s|, |s|);
    } else {
      StripIsSlice(s);
    }
  }

  /** A line whose ends are not whitespace is kept as it is. */
  lemma StripKeeps(s: string)
    requires |s| > 0 ==> !IsWhitespace(s[0]) && !IsWhitespace(s[|s| - 1])
    ensures Strip(s) == s
  {
    StripUnique(s, 0, |s|);
    assert s[0..|s|] == s;
  }

  /** A line as `readlines()` returns it, with its newline, strips to its text
      when that text has no surrounding whitespace. */
  lemma StripLine(x: string)
    requires |x| > 0 ==> !IsWhitespace(x[0]) && !IsWhitespace(x[|x| - 1])
    ensures Strip(x + "\n") == x
  {
    var s := x + "\n";
    assert s[|x|] == '\n';
    StripUnique(s, 0, |x|);
    assert s[0..|x|] == x;
  }

  /** The address lines of a DoT capture strip to the bare addresses. */
  lemma StripAddressLines()
    ensures Strip("8.8.8.8\n") == "8.8.8.8"
    ensures Strip("8.8.4.4\n") == "8.8.4.4"
    ensures Strip("2001:4860::1\n") == "2001:4860::1"
  {
    var a, b, c := "8.8.8.8", "8.8.4.4", "2001:4860::1";
    assert Strip(a + "\n") == a by { StripLine(a); }
    assert Strip(b + "\n") == b by { StripLine(b); }
    assert Strip(c + "\n") == c by { StripLine(c); }
    assert "8.8.8.8\n" == a + "\n";
    assert "8.8.4.4\n" == b + "\n";
    assert "2001:4860::1\n" == c + "\n";
  }

  // ---------------------------------------------------------------------------
  // str.replace(pat, rep)
  // ---------------------------------------------------------------------------

  predicate StartsWith(s: string, p: string) {
    |p| <= |s| && s[..|p|] == p
  }

  /** Python's `s.replace(pat, rep)` for a non-empty `pat`: scanning from the left,
      every occurrence of `pat` that does not overlap an earlier replaced one is
      replaced by `rep`; the replacement text is not scanned again. */
  function Replace(s: string, pat: string, rep: string): (r: string)
    requires pat != ""
    ensures |s| < |pat| ==> r == s
    ensures rep == "" ==> |r| <= |s|
    decreases |s|
  {
    if |s| == 0 then ""
    else if StartsWith(s, pat) then rep + Replace(s[|pat|..], pat, rep)
    else [s[0]] + Replace(s[1..], pat, rep)
  }

  /** The number of occurrences that `Replace` replaces. */
  function Replaced(s: string, pat: string): (n: nat)
    requires pat != ""
    decreases |s|
  {
    if |s| == 0 then 0
    else if StartsWith(s, pat) then 1 + Replaced(s[|pat|..], pat)
    else Replaced(s[1..], pat)
  }

  /** `pat` occurs somewhere in `s`. */
  ghost predicate Occurs(s: string, pat: string) {
    exists i :: 0 <= i <= |s| - |pat| && StartsWith(s[i..], pat)
  }

  /** Isolates the distributive step `(n + 1) * d == n * d + d` of `ReplaceLength`. */
  lemma MulSucc(n: int, d: int)
    ensures (n + 1) * d == n * d + d
  {
  }

  /** Each replaced occurrence changes the length by `|rep| - |pat|`. */
  lemma {:induction false} ReplaceLength(s: string, pat: string, rep: string)
    requires pat != ""
    ensures |Replace(s, pat, rep)| == |s| + Replaced(s, pat) * (|rep| - |pat|)
    decreases |s|
  {
    var d := |rep| - |pat|;
    if |s| == 0 {
    } else if StartsWith(s, pat) {
      var rest := s[|pat|..];
      ReplaceLength(rest, pat, rep);
      var n := Replaced(rest, pat);
      assert |Replace(rest, pat, rep)| == |rest| + n * d;
      assert |Replace(s, pat, rep)| == |rep| + |rest| + n * d;
      assert Replaced(s, pat) == n + 1;
      MulSucc(n, d);
    } else {
      ReplaceLength(s[1..], pat, rep);
    }
  }

  /** The scan replaces something exactly when `pat` occurs in `s`. */
  lemma {:induction false} ReplacedPositiveIff(s: string, pat: string)
    requires pat != ""
    ensures Replaced(s, pat) > 0 <==> Occurs(s, pat)
    decreases |s|
  {
    if |s| == 0 {
    } else if StartsWith(s, pat) {
      assert s[0..] == s;
    } else {
      ReplacedPositiveIff(s[1..], pat);
      if Occurs(s, pat) {
        var i :| 0 <= i <= |s| - |pat| && StartsWith(s[i..], pat);
        assert i != 0 by { assert s[0..] == s; }
        assert s[1..][i - 1..] == s[i..];
      }
      if Occurs(s[1..], pat) {
        var i :| 0 <= i <= |s[1..]| - |pat| && StartsWith(s[1..][i..], pat);
        assert s[1..][i..] == s[i + 1..];
      }
    }
  }

  /** A scan that replaces nothing returns its input. */
  lemma {:induction false} ReplaceNothing(s: string, pat: string, rep: string)
    requires pat != ""
    requires Replaced(s, pat) == 0
    ensures Replace(s, pat, rep) == s
    decreases |s|
  {
    if |s| > 0 {
      ReplaceNothing(s[1..], pat, rep);
      assert [s[0]] + s[1..] == s;
    }
  }

  /** A string in which `pat` does not occur is left unchanged. */
  lemma ReplaceAbsent(s: string, pat: string, rep: string)
    requires pat != ""
    requires !Occurs(s, pat)
    ensures Replace(s, pat, rep) == s
  {
    ReplacedPositiveIff(s, pat);
    ReplaceNothing(s, pat, rep);
  }

  // ---------------------------------------------------------------------------
  // Ping cell cleaning: replace("time=", "")
  // ---------------------------------------------------------------------------

  const TimeLabel: string := "time="

  /** The ping cell text: `s.replace("time=", "")`. */
  function Clean(s: string): (r: string)
    ensures |r| <= |s|
    ensures |s| < |TimeLabel| ==> r == s
  {
    Replace(s, TimeLabel, "")
  }

  /** Cleaning removes exactly five characters per removed label. */
  lemma CleanLength(s: string)
    ensures |Clean(s)| == |s| - 5 * Replaced(s, TimeLabel)
  {
    ReplaceLength(s, TimeLabel, "");
  }

  /** A cell is left unchanged exactly when it holds no `"time="`. */
  lemma CleanUnchangedIff(s: string)
    ensures Clean(s) == s <==> !Occurs(s, TimeLabel)
  {
    CleanLength(s);
    ReplacedPositiveIff(s, TimeLabel);
    if !Occurs(s, TimeLabel) {
      ReplaceAbsent(s, TimeLabel, "");
    }
  }

  /** A leading label is removed and the scan goes on after it. */
  lemma CleanLabelled(x: string)
    ensures Clean(TimeLabel + x) == Clean(x)
  {
    var s := TimeLabel + x;
    assert StartsWith(s, TimeLabel);
    assert s[|TimeLabel|..] == x;
  }

  /** `"time=" + x` renders as `x` when `x` holds no further label. */
  lemma CleanLabelledValue(x: string)
    requires !Occurs(x, TimeLabel)
    ensures Clean(TimeLabel + x) == x
  {
    CleanLabelled(x);
    ReplaceAbsent(x, TimeLabel, "");
  }

  /** One step of the scan on a cell that starts with a label. */
  lemma CleanStepLabel(s: string)
    requires StartsWith(s, TimeLabel)
    ensures Clean(s) == Clean(s[|TimeLabel|..])
  {
  }

  /** One step of the scan on a non-empty cell that does not start with a label. */
  lemma CleanStepChar(s: string)
    requires |s| > 0 && !StartsWith(s, TimeLabel)
    ensures Clean(s) == [s[0]] + Clean(s[1..])
  {
  }

  /** The inductive step of `CleanAround` when `a` starts with a label. */
  lemma CleanAroundLabelStep(a: string, b: string)
    requires StartsWith(a, TimeLabel)
    requires Clean(a[|TimeLabel|..] + TimeLabel + b) == Clean(a[|TimeLabel|..]) + Clean(b)
    ensures Clean(a + TimeLabel + b) == Clean(a) + Clean(b)
  {
    var s := a + TimeLabel + b;
    assert s[..|TimeLabel|] == a[..|TimeLabel|];
    CleanStepLabel(s);
    CleanStepLabel(a);
    assert s[|TimeLabel|..] == a[|TimeLabel|..] + TimeLabel + b;
  }

  /** A label cannot start inside `a` and run into a label that follows it,
      since `'t'` occurs in `"time="` only at its start. */
  lemma NoLabelAcross(a: string, b: string)
    requires |a| > 0 && !StartsWith(a, TimeLabel)
    ensures !StartsWith(a + TimeLabel + b, TimeLabel)
  {
    var s := a + TimeLabel + b;
    if |a| >= |TimeLabel| {
      assert s[..|TimeLabel|] == a[..|TimeLabel|];
    } else {
      assert s[|a|] == 't';
      assert TimeLabel[|a|] != 't';
    }
  }

  /** The inductive step of `CleanAround` when `a` starts with any other character. */
  lemma CleanAroundCharStep(a: string, b: string)
    requires |a| > 0 && !StartsWith(a, TimeLabel)
    requires Clean(a[1..] + TimeLabel + b) == Clean(a[1..]) + Clean(b)
    ensures Clean(a + TimeLabel + b) == Clean(a) + Clean(b)
  {
    var s := a + TimeLabel + b;
    NoLabelAcross(a, b);
    assert s[1..] == a[1..] + TimeLabel + b;
    CleanStepChar(s);
    CleanStepChar(a);
  }

  /** A label anywhere in a cell is removed, and the scan treats the text on
      either side of it independently, since `"time="` cannot overlap itself. */
  lemma {:induction false} CleanAround(a: string, b: string)
    ensures Clean(a + TimeLabel + b) == Clean(a) + Clean(b)
    decreases |a|
  {
    if |a| == 0 {
      assert a + TimeLabel + b == TimeLabel + b;
      CleanLabelled(b);
    } else if StartsWith(a, TimeLabel) {
      CleanAround(a[|TimeLabel|..], b);
      CleanAroundLabelStep(a, b);
    } else {
      CleanAround(a[1..], b);
      CleanAroundCharStep(a, b);
    }
  }

  /** A label at the end of a value is removed: `"10mstime="` renders as `"10ms"`. */
  lemma CleanTrailingLabel()
    ensures Clean("10mstime=") == "10ms"
  {
    assert "10mstime=" == "10ms" + TimeLabel + "";
    CleanAround("10ms", "");
    assert !Occurs("10ms", TimeLabel);
    ReplaceAbsent("10ms", TimeLabel, "");
  }

  /** The padding entry `"time=N/A"` renders as `"N/A"`. */
  lemma CleanNotAvailable()
    ensures Clean("time=N/A") == "N/A"
  {
    assert "time=N/A" == TimeLabel + "N/A";
    assert !Occurs("N/A", TimeLabel);
    CleanLabelledValue("N/A");
  }

  /** The scan is a single pass: removing a label can join its neighbours into a
      new label, which stays. So cleaning is not idempotent. */
  lemma CleanSinglePass()
    ensures Clean("ttime=ime=") == "time="
    ensures Clean(Clean("ttime=ime=")) == ""
  {
    assert "ttime=ime=" == "t" + TimeLabel + "ime=";
    CleanAround("t", "ime=");
    assert "time=" == "" + TimeLabel + "";
    CleanAround("", "");
  }
}
