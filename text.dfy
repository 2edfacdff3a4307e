/** The conventional Some/None wrapper, for values Python represents as `None`. */
module Wrappers {
  datatype Option<+T> = None | Some(value: T)
}

/**
 * The few operations on Python `str` that the scraper and the menu rely on:
 * `strip()`, `lower()`, `split(',')`, `sep.join(...)`, `isdigit()` and `int()`
 * on a run of decimal digits.
 */
module Text {
  import opened Wrappers

  /** `str.isspace()`: the characters Python treats as whitespace (also `\s` in `re`). */
  predicate IsSpace(c: char) {
    || ('\t' <= c <= '\r')
    || ('\U{1C}' <= c <= ' ')
    || c == '\U{85}' || c == '\U{A0}' || c == '\U{1680}'
    || ('\U{2000}' <= c <= '\U{200A}')
    || c == '\U{2028}' || c == '\U{2029}' || c == '\U{202F}' || c == '\U{205F}' || c == '\U{3000}'
  }

  predicate IsDigit(c: char) { '0' <= c <= '9' }

  /** The regular-expression class `[A-Z]`. */
  predicate IsUpper(c: char) { 'A' <= c <= 'Z' }

  predicate AllSpace(s: string) { forall i :: 0 <= i < |s| ==> IsSpace(s[i]) }

  /** `str.isdigit()` on ASCII: non-empty and every character a digit. */
  predicate IsDigits(s: string) { |s| > 0 && forall i :: 0 <= i < |s| ==> IsDigit(s[i]) }

  /** Leading whitespace removed. */
  function TrimStart(s: string): string
    decreases |s|
  {
    if s != [] && IsSpace(s[0]) then TrimStart(s[1..]) else s
  }

  /** Trailing whitespace removed. */
  function TrimEnd(s: string): string
    decreases |s|
  {
    if s != [] && IsSpace(s[|s| - 1]) then TrimEnd(s[..|s| - 1]) else s
  }

  /** `str.strip()`. */
  function Strip(s: string): string {
    TrimEnd(TrimStart(s))
  }

  /** `TrimStart` removes exactly the leading run of whitespace. */
  lemma {:induction false} TrimStartShape(s: string)
    ensures |TrimStart(s)| <= |s| && TrimStart(s) == s[|s| - |TrimStart(s)|..]
    ensures TrimStart(s) == [] || !IsSpace(TrimStart(s)[0])
    ensures AllSpace(s[..|s| - |TrimStart(s)|])
    decreases |s|
  {
    if s != [] && IsSpace(s[0]) {
      TrimStartShape(s[1..]);
      var r := TrimStart(s);
      assert s[1..][|s| - 1 - |r|..] == s[|s| - |r|..];
      assert forall i :: 1 <= i < |s| - |r| ==> s[1..][..|s| - 1 - |r|][i - 1] == s[i];
    }
  }

  /** `TrimEnd` removes exactly the trailing run of whitespace. */
  lemma {:induction false} TrimEndShape(s: string)
    ensures |TrimEnd(s)| <= |s| && TrimEnd(s) == s[..|TrimEnd(s)|]
    ensures TrimEnd(s) == [] || !IsSpace(TrimEnd(s)[|TrimEnd(s)| - 1])
    ensures AllSpace(s[|TrimEnd(s)|..])
    decreases |s|
  {
    if s != [] && IsSpace(s[|s| - 1]) {
      var s' := s[..|s| - 1];
      TrimEndShape(s');
      var r := TrimEnd(s);
      assert s'[..|r|] == s[..|r|];
      assert forall i :: |r| <= i < |s| - 1 ==> s'[|r|..][i - |r|] == s[i];
    }
  }

  /** `Strip` cuts out of `s` an infix that neither starts nor ends with whitespace, removing only whitespace around it. */
  lemma StripShape(s: string)
    ensures |Strip(s)| <= |s|
    ensures exists a :: (0 <= a <= |s| - |Strip(s)| && Strip(s) == s[a..a + |Strip(s)|]
                         && AllSpace(s[..a]) && AllSpace(s[a + |Strip(s)|..]))
    ensures Strip(s) == [] || (!IsSpace(Strip(s)[0]) && !IsSpace(Strip(s)[|Strip(s)| - 1]))
  {
    var t := TrimStart(s);
    TrimStartShape(s);
    TrimEndShape(t);
    var r := TrimEnd(t);
    var a := |s| - |t|;
    assert s[..a] == s[..|s| - |t|];
    assert s[a + |r|..] == t[|r|..];
    assert 0 <= a <= |s| - |r| && r == s[a..a + |r|] && AllSpace(s[..a]) && AllSpace(s[a + |r|..]);
  }

  function LowerChar(c: char): char {
    if 'A' <= c <= 'Z' then (c as int + 32) as char else c
  }

  /** `str.lower()` on the ASCII letters; every other character is kept. */
  function Lower(s: string): (r: string)
    ensures |r| == |s|
  {
    seq(|s|, i requires 0 <= i < |s| => LowerChar(s[i]))
  }

  /** `str.split(sep)` for a one-character separator: one more piece than there are separators. */
  function Split(s: string, sep: char): (parts: seq<string>)
    ensures |parts| >= 1
    decreases |s|
  {
    if s == [] then [[]]
    else if s[0] == sep then [[]] + Split(s[1..], sep)
    else var t := Split(s[1..], sep); [[s[0]] + t[0]] + t[1..]
  }

  /** `sep.join(parts)`. */
  function Join(parts: seq<string>, sep: string): string
    decreases |parts|
  {
    if parts == [] then []
    else if |parts| == 1 then parts[0]
    else parts[0] + sep + Join(parts[1..], sep)
  }

  /** Splitting and re-joining on the same separator gives back the text, and no piece holds the separator. */
  lemma {:induction false} SplitJoin(s: string, sep: char)
    ensures Join(Split(s, sep), [sep]) == s
    ensures forall k :: 0 <= k < |Split(s, sep)| ==> sep !in Split(s, sep)[k]
    decreases |s|
  {
    if s == [] {
    } else if s[0] == sep {
      SplitJoin(s[1..], sep);
      var t := Split(s[1..], sep);
      assert Split(s, sep) == [[]] + t;
      assert Join([[]] + t, [sep]) == [] + [sep] + Join(t, [sep]);
      forall k | 0 <= k < |Split(s, sep)| ensures sep !in Split(s, sep)[k] {
        if k > 0 { assert Split(s, sep)[k] == t[k - 1]; }
      }
    } else {
      SplitJoin(s[1..], sep);
      var t := Split(s[1..], sep);
      var parts := [[s[0]] + t[0]] + t[1..];
      assert Split(s, sep) == parts;
      if |t| == 1 {
        assert parts == [[s[0]] + t[0]];
        assert Join(t, [sep]) == t[0];
      } else {
        assert Join(t, [sep]) == t[0] + [sep] + Join(t[1..], [sep]);
        assert parts[1..] == t[1..];
      }
      forall k | 0 <= k < |parts| ensures sep !in parts[k] {
        if k == 0 {
          assert sep !in t[0];
          assert parts[0] == [s[0]] + t[0];
        } else {
          assert parts[k] == t[k];
        }
      }
    }
  }

  /** Two adjacent separators leave an empty piece, and it is never the first one. */
  lemma {:induction false} SplitDoubleSeparator(a: string, b: string, sep: char)
    ensures [] in Split(a + [sep, sep] + b, sep)[1..]
    decreases |a|
  {
    var s := a + [sep, sep] + b;
    if a == [] {
      assert s[1..] == [sep] + b;
      assert [sep] + b != [] && ([sep] + b)[0] == sep && ([sep] + b)[1..] == b;
      assert Split(s, sep)[1] == [];
    } else {
      assert s[1..] == a[1..] + [sep, sep] + b;
      SplitDoubleSeparator(a[1..], b, sep);
      var t := Split(s[1..], sep);
      var k :| 1 <= k < |t| && t[k] == [];
      if a[0] == sep {
        assert Split(s, sep)[k + 1] == [];
      } else {
        assert Split(s, sep)[k] == [];
      }
    }
  }

  /** A trailing separator leaves an empty last piece after at least one other. */
  lemma {:induction false} SplitTrailingSeparator(a: string, sep: char)
    ensures |Split(a + [sep], sep)| >= 2
    ensures Split(a + [sep], sep)[|Split(a + [sep], sep)| - 1] == []
    decreases |a|
  {
    var s := a + [sep];
    if a == [] {
      assert s[1..] == [];
    } else {
      assert s[1..] == a[1..] + [sep];
      SplitTrailingSeparator(a[1..], sep);
    }
  }

  /** Joining the concatenation of two non-empty lists puts one separator between their joins. */
  lemma {:induction false} JoinAppend(a: seq<string>, b: seq<string>, sep: string)
    requires a != [] && b != []
    ensures Join(a + b, sep) == Join(a, sep) + sep + Join(b, sep)
    decreases |a|
  {
    if |a| == 1 {
      assert a + b == [a[0]] + b;
    } else {
      assert (a + b)[1..] == a[1..] + b;
      JoinAppend(a[1..], b, sep);
    }
  }

  /** The value of a run of decimal digits, as `int()` reads it. */
  function DigitsValue(s: string): (n: nat)
    requires forall i :: 0 <= i < |s| ==> IsDigit(s[i])
    decreases |s|
  {
    if s == [] then 0
    else
      assert IsDigit(s[|s| - 1]);
      DigitsValue(s[..|s| - 1]) * 10 + (s[|s| - 1] as int - '0' as int)
  }

  /** `int()` on a stripped string: an optional sign and decimal digits; anything else raises. */
  function ParseInt(s: string): (r: Option<int>)
    ensures r.Some? ==> |s| > 0 && (IsDigit(s[0]) || s[0] == '+' || s[0] == '-')
  {
    if IsDigits(s) then Some(DigitsValue(s))
    else if |s| > 1 && s[0] == '+' && IsDigits(s[1..]) then Some(DigitsValue(s[1..]))
    else if |s| > 1 && s[0] == '-' && IsDigits(s[1..]) then Some(-(DigitsValue(s[1..]) as int))
    else None
  }

  /**
   * The position of the first character from `i` on that satisfies `p`:
   * what `re.search` finds for a pattern that begins with one character class.
   */
  function FirstMatch(s: string, i: nat, p: char -> bool): (r: Option<nat>)
    requires i <= |s|
    ensures r.Some? ==> i <= r.value < |s| && p(s[r.value])
    decreases |s| - i
  {
    if i == |s| then None else if p(s[i]) then Some(i) else FirstMatch(s, i + 1, p)
  }

  /** `FirstMatch` finds the leftmost such character, and None means there is none. */
  lemma {:induction false} FirstMatchIsLeftmost(s: string, i: nat, p: char -> bool)
    requires i <= |s|
    ensures FirstMatch(s, i, p).Some? ==> forall j :: i <= j < FirstMatch(s, i, p).value ==> !p(s[j])
    ensures FirstMatch(s, i, p).None? ==> forall j :: i <= j < |s| ==> !p(s[j])
    decreases |s| - i
  {
    if i < |s| && !p(s[i]) {
      FirstMatchIsLeftmost(s, i + 1, p);
    }
  }

  /** The end of the run of digits that starts at `i`. */
  function DigitRunEnd(s: string, i: nat): (j: nat)
    requires i <= |s|
    ensures i <= j <= |s|
    ensures forall k :: i <= k < j ==> IsDigit(s[k])
    ensures j == |s| || !IsDigit(s[j])
    decreases |s| - i
  {
    if i < |s| && IsDigit(s[i]) then DigitRunEnd(s, i + 1) else i
  }

  /** The end of the run of whitespace that starts at `i`. */
  function SpaceRunEnd(s: string, i: nat): (j: nat)
    requires i <= |s|
    ensures i <= j <= |s|
    ensures forall k :: i <= k < j ==> IsSpace(s[k])
    ensures j == |s| || !IsSpace(s[j])
    decreases |s| - i
  {
    if i < |s| && IsSpace(s[i]) then SpaceRunEnd(s, i + 1) else i
  }

  /** A run of digits ending where the digits stop is the run `DigitRunEnd` measures. */
  lemma {:induction false} DigitRunEndAt(s: string, i: nat, j: nat)
    requires i <= j <= |s|
    requires forall k :: i <= k < j ==> IsDigit(s[k])
    requires j == |s| || !IsDigit(s[j])
    ensures DigitRunEnd(s, i) == j
    decreases j - i
  {
    if i < j {
      DigitRunEndAt(s, i + 1, j);
    }
  }

  /** A run of whitespace ending where the whitespace stops is the run `SpaceRunEnd` measures. */
  lemma {:induction false} SpaceRunEndAt(s: string, i: nat, j: nat)
    requires i <= j <= |s|
    requires forall k :: i <= k < j ==> IsSpace(s[k])
    requires j == |s| || !IsSpace(s[j])
    ensures SpaceRunEnd(s, i) == j
    decreases j - i
  {
    if i < j {
      SpaceRunEndAt(s, i + 1, j);
    }
  }
}
