/**
 * The PHP string operations the CSV writer relies on (`!$s`, `strstr`,
 * `str_replace`, `implode`, integer-to-string conversion), and a line/field
 * reader used to state what the written text means.
 */
module Text {
  import opened Wrappers

  /** PHP's `!$s` on a string: only "" and "0" are falsy. */
  predicate Falsy(s: string) {
    s == "" || s == "0"
  }

  predicate StartsWith(s: string, prefix: string) {
    |prefix| <= |s| && s[..|prefix|] == prefix
  }

  /** `needle` occurs somewhere in `s`. */
  predicate Contains(s: string, needle: string)
    decreases |s|
  {
    StartsWith(s, needle) || (|s| > 0 && Contains(s[1..], needle))
  }

  lemma {:induction false} ContainsChar(s: string, c: char)
    ensures Contains(s, [c]) <==> c in s
    decreases |s|
  {
    if |s| > 0 {
      ContainsChar(s[1..], c);
      assert s == [s[0]] + s[1..];
    }
  }

  /** A text built around the needle contains it. */
  lemma {:induction false} ContainsAt(x: string, needle: string, y: string)
    ensures Contains(x + needle + y, needle)
    decreases |x|
  {
    if x == [] {
      assert (x + needle + y)[..|needle|] == needle;
    } else {
      assert (x + needle + y)[1..] == x[1..] + needle + y;
      ContainsAt(x[1..], needle, y);
    }
  }

  // ---------------------------------------------------------------- strstr

  /** PHP's `strstr($haystack, $needle)`: the rest of the haystack from the first
      occurrence of the needle on, or None (PHP's `false`) when there is none. */
  function StrStr(haystack: string, needle: string): (r: Option<string>)
    ensures r.Some? ==> StartsWith(r.value, needle) && |r.value| <= |haystack|
    ensures r.Some? ==> r.value == haystack[|haystack| - |r.value|..]
    decreases |haystack|
  {
    if StartsWith(haystack, needle) then Some(haystack)
    else if haystack == [] then None
    else StrStr(haystack[1..], needle)
  }

  /** How PHP's `if` reads a value that is a string or `false`. */
  predicate Truthy(r: Option<string>) {
    r.Some? && !Falsy(r.value)
  }

  /** Used as a condition, `strstr` means "contains" for every needle PHP reads as true. */
  lemma {:induction false} StrStrTruthyIffContains(haystack: string, needle: string)
    requires !Falsy(needle)
    ensures Truthy(StrStr(haystack, needle)) <==> Contains(haystack, needle)
    decreases |haystack|
  {
    if StartsWith(haystack, needle) {
      assert haystack[..|needle|] == needle;
    } else if haystack != [] {
      StrStrTruthyIffContains(haystack[1..], needle);
    }
  }

  /** With the needle "0", `strstr` is falsy although the needle occurs. */
  lemma StrStrZeroQuirk()
    ensures Contains("10", "0") && !Truthy(StrStr("10", "0"))
  {
    assert "10"[..1] == ['1'];
    assert !StartsWith("10", "0");
    assert "10"[1..] == "0";
    assert StartsWith("0", "0");
  }

  // ----------------------------------------------------------- str_replace

  /** PHP's `str_replace($needle, $replacement, $s)` for one needle: occurrences are
      found left to right, do not overlap, and the replacement is not rescanned.
      An empty needle leaves the subject as it is. */
  function Replace(s: string, needle: string, replacement: string): string
    decreases |s|
  {
    if needle == [] || |s| < |needle| then s
    else if StartsWith(s, needle) then replacement + Replace(s[|needle|..], needle, replacement)
    else [s[0]] + Replace(s[1..], needle, replacement)
  }

  /** A subject in which the needle does not occur comes back unchanged. */
  lemma {:induction false} ReplaceAbsent(s: string, needle: string, replacement: string)
    requires !Contains(s, needle)
    ensures Replace(s, needle, replacement) == s
    decreases |s|
  {
    if needle != [] && |s| >= |needle| {
      assert !StartsWith(s, needle);
      ReplaceAbsent(s[1..], needle, replacement);
      assert s == [s[0]] + s[1..];
    }
  }

  /** With a one-character needle, the first occurrence after a needle-free prefix is
      replaced and the scan goes on in the rest. */
  lemma {:induction false} ReplaceSplice(x: string, needle: string, y: string, replacement: string)
    requires |needle| == 1 && !Contains(x, needle)
    ensures Replace(x + needle + y, needle, replacement) == x + replacement + Replace(y, needle, replacement)
    decreases |x|
  {
    if x == [] {
      assert x + needle + y == needle + y;
      assert (needle + y)[..1] == needle;
      assert (needle + y)[1..] == y;
    } else {
      assert (x + needle + y)[..1] == x[..1];
      assert (x + needle + y)[1..] == x[1..] + needle + y;
      ReplaceSplice(x[1..], needle, y, replacement);
      assert x == [x[0]] + x[1..];
    }
  }

  /** Every character of the result comes from the subject or from the replacement. */
  lemma {:induction false} ReplaceChars(s: string, needle: string, replacement: string, c: char)
    requires c in Replace(s, needle, replacement)
    ensures c in s || c in replacement
    decreases |s|
  {
    if needle != [] && |s| >= |needle| {
      if StartsWith(s, needle) {
        if c !in replacement {
          ReplaceChars(s[|needle|..], needle, replacement, c);
        }
      } else if c != s[0] {
        ReplaceChars(s[1..], needle, replacement, c);
      }
    }
  }

  /** For a one-character needle, a replacement free of the needle removes every occurrence. */
  lemma {:induction false} ReplaceRemovesChar(s: string, c: char, replacement: string)
    requires c !in replacement
    ensures c !in Replace(s, [c], replacement)
    decreases |s|
  {
    if |s| >= 1 {
      ReplaceRemovesChar(s[1..], c, replacement);
      if StartsWith(s, [c]) {
        assert s[1..] == s[|[c]|..];
      } else {
        assert s[..1] == [s[0]];
      }
    }
  }

  /** With a needle of two characters, a replacement free of the needle can still
      leave an occurrence behind, because the result is not rescanned. */
  lemma ReplaceMayLeaveLongNeedle()
    ensures Replace("aabb", "ab", "a") == "aab"
    ensures !Contains("a", "ab") && Contains("aab", "ab")
  {
    assert "aabb"[..2] == ['a', 'a'];
    assert !StartsWith("aabb", "ab");
    assert "aabb"[1..] == "abb";
    assert StartsWith("abb", "ab");
    assert "abb"[2..] == "b";
    assert Replace("b", "ab", "a") == "b";
    assert "aab"[1..] == "ab";
    assert StartsWith("ab", "ab");
  }

  // --------------------------------------------------------------- implode

  /** PHP's `implode($glue, $parts)`. */
  function Join(parts: seq<string>, glue: string): string
    decreases |parts|
  {
    if |parts| == 0 then ""
    else if |parts| == 1 then parts[0]
    else parts[0] + glue + Join(parts[1..], glue)
  }

  /** A character that is in neither the parts nor the glue is not in the joined text. */
  lemma {:induction false} JoinAvoids(parts: seq<string>, glue: string, c: char)
    requires c !in glue
    requires forall i :: 0 <= i < |parts| ==> c !in parts[i]
    ensures c !in Join(parts, glue)
    decreases |parts|
  {
    if |parts| > 1 {
      JoinAvoids(parts[1..], glue, c);
    }
  }

  /** Text whose every line is terminated by a newline. */
  function Terminated(lines: seq<string>): string
    decreases |lines|
  {
    if lines == [] then "" else lines[0] + "\n" + Terminated(lines[1..])
  }

  lemma {:induction false} TerminatedSnoc(lines: seq<string>, line: string)
    ensures Terminated(lines + [line]) == Terminated(lines) + line + "\n"
    decreases |lines|
  {
    if lines != [] {
      assert (lines + [line])[1..] == lines[1..] + [line];
      TerminatedSnoc(lines[1..], line);
    }
  }

  /** Appending a line and its newline to text that follows a prefix. */
  lemma AppendLine(prefix: string, lines: seq<string>, line: string)
    ensures prefix + Terminated(lines) + line + "\n" == prefix + Terminated(lines + [line])
  {
    TerminatedSnoc(lines, line);
  }

  // ---------------------------------------------------------------- reader

  /** Splits a text at every occurrence of `c`; always at least one piece. */
  function Split(s: string, c: char): (r: seq<string>)
    ensures |r| >= 1
    decreases |s|
  {
    if s == [] then [""]
    else
      var rest := Split(s[1..], c);
      if s[0] == c then [""] + rest else [[s[0]] + rest[0]] + rest[1..]
  }

  lemma {:induction false} SplitWithout(s: string, c: char)
    requires c !in s
    ensures Split(s, c) == [s]
    decreases |s|
  {
    if s != [] {
      SplitWithout(s[1..], c);
      assert s == [s[0]] + s[1..];
    }
  }

  lemma {:induction false} SplitAt(a: string, c: char, b: string)
    requires c !in a
    ensures Split(a + [c] + b, c) == [a] + Split(b, c)
    decreases |a|
  {
    if a == [] {
      assert a + [c] + b == [c] + b;
      assert ([c] + b)[1..] == b;
    } else {
      assert (a + [c] + b)[1..] == a[1..] + [c] + b;
      SplitAt(a[1..], c, b);
      assert a == [a[0]] + a[1..];
    }
  }

  /** Splitting undoes joining, as long as no part holds the glue character. */
  lemma {:induction false} SplitJoin(parts: seq<string>, c: char)
    requires |parts| >= 1
    requires forall i :: 0 <= i < |parts| ==> c !in parts[i]
    ensures Split(Join(parts, [c]), c) == parts
    decreases |parts|
  {
    if |parts| == 1 {
      SplitWithout(parts[0], c);
    } else {
      SplitJoin(parts[1..], c);
      SplitAt(parts[0], c, Join(parts[1..], [c]));
      assert parts == [parts[0]] + parts[1..];
    }
  }

  /** Splitting newline-terminated lines at newlines gives the lines back, then an empty rest. */
  lemma {:induction false} SplitTerminated(lines: seq<string>)
    requires forall i :: 0 <= i < |lines| ==> '\n' !in lines[i]
    ensures Split(Terminated(lines), '\n') == lines + [""]
    decreases |lines|
  {
    if lines != [] {
      SplitTerminated(lines[1..]);
      SplitAt(lines[0], '\n', Terminated(lines[1..]));
      assert lines == [lines[0]] + lines[1..];
    }
  }

  /** Reads delimited text: one row per newline-terminated line, the line split at
      `sep`. None when the text does not end with a newline. */
  function ReadTable(text: string, sep: char): (r: Option<seq<seq<string>>>)
    ensures r.Some? ==> |r.value| == |Split(text, '\n')| - 1
  {
    var lines := Split(text, '\n');
    if lines[|lines| - 1] != "" then None
    else Some(seq(|lines| - 1, i requires 0 <= i < |lines| - 1 => Split(lines[i], sep)))
  }

  // ------------------------------------------------------ integer to string

  function DigitChar(d: nat): char
    requires d < 10
  {
    "0123456789"[d]
  }

  function DigitValue(c: char): int {
    c as int - '0' as int
  }

  predicate IsDigits(s: string) {
    forall i :: 0 <= i < |s| ==> '0' <= s[i] <= '9'
  }

  /** Decimal digits of a natural number, most significant first, no leading zeros. */
  function NatToString(n: nat): (r: string)
    ensures |r| >= 1 && IsDigits(r)
    decreases n
  {
    if n < 10 then [DigitChar(n)] else NatToString(n / 10) + [DigitChar(n % 10)]
  }

  /** PHP's `'' . $i` for an integer. */
  function IntToString(i: int): string {
    if i < 0 then "-" + NatToString(-i) else NatToString(i)
  }

  function DigitsToNat(s: string): int
    decreases |s|
  {
    if s == [] then 0 else DigitsToNat(s[..|s| - 1]) * 10 + DigitValue(s[|s| - 1])
  }

  /** Reads a decimal integer with an optional minus sign. */
  function ParseInt(s: string): int {
    if |s| > 0 && s[0] == '-' then -DigitsToNat(s[1..]) else DigitsToNat(s)
  }

  lemma {:induction false} NatToStringRoundTrip(n: nat)
    ensures DigitsToNat(NatToString(n)) == n
    decreases n
  {
    if n >= 10 {
      NatToStringRoundTrip(n / 10);
      var s := NatToString(n);
      assert s[..|s| - 1] == NatToString(n / 10);
    }
  }

  /** The decimal text of an integer reads back as that integer. */
  lemma IntToStringRoundTrip(i: int)
    ensures ParseInt(IntToString(i)) == i
  {
    if i < 0 {
      NatToStringRoundTrip(-i);
      assert ("-" + NatToString(-i))[1..] == NatToString(-i);
    } else {
      NatToStringRoundTrip(i);
    }
  }
}
