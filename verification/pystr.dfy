/**
 * The few Python string builtins the sync core relies on: `str.split` on a
 * single character, `sep.join`, `str.splitlines` (on '\n' only), `int(s)`
 * for decimal text, `str(i)` for integers and `str.isnumeric` (ASCII digits).
 */
module PyStr {
  import opened Wrappers

  /** `s.split(d)`: the pieces between occurrences of `d`, always at least one. */
  function Split(s: string, d: char): (r: seq<string>)
    ensures |r| >= 1
    ensures forall i :: 0 <= i < |r| ==> d !in r[i]
  {
    if s == [] then [""]
    else
      var rest := Split(s[1..], d);
      if s[0] == d then [""] + rest
      else [[s[0]] + rest[0]] + rest[1..]
  }

  /** `d.join(parts)`. */
  function Join(parts: seq<string>, d: char): string
  {
    if |parts| == 0 then ""
    else if |parts| == 1 then parts[0]
    else parts[0] + [d] + Join(parts[1..], d)
  }

  /** Splitting a text that starts with a piece free of `d` keeps that piece whole. */
  lemma {:induction false} SplitPrefix(x: string, t: string, d: char)
    requires d !in x
    ensures Split(x + t, d) == [x + Split(t, d)[0]] + Split(t, d)[1..]
  {
    if x != [] {
      assert (x + t)[1..] == x[1..] + t;
      SplitPrefix(x[1..], t, d);
      assert [x[0]] + (x[1..] + Split(t, d)[0]) == x + Split(t, d)[0];
    } else {
      assert x + t == t;
      assert x + Split(t, d)[0] == Split(t, d)[0];
      assert Split(t, d) == [Split(t, d)[0]] + Split(t, d)[1..];
    }
  }

  /** Splitting undoes joining, as long as no piece holds the separator. */
  lemma {:induction false} SplitJoin(parts: seq<string>, d: char)
    requires |parts| >= 1
    requires forall i :: 0 <= i < |parts| ==> d !in parts[i]
    ensures Split(Join(parts, d), d) == parts
  {
    if |parts| == 1 {
      SplitPrefix(parts[0], "", d);
      assert parts[0] + "" == parts[0];
    } else {
      var tail := Join(parts[1..], d);
      SplitJoin(parts[1..], d);
      assert Join(parts, d) == parts[0] + ([d] + tail);
      SplitPrefix(parts[0], [d] + tail, d);
      assert ([d] + tail)[1..] == tail;
      assert Split([d] + tail, d) == [""] + parts[1..];
      assert parts[0] + "" == parts[0];
    }
  }

  /** Joining undoes splitting: no character of the text is lost or added. */
  lemma {:induction false} JoinSplit(s: string, d: char)
    ensures Join(Split(s, d), d) == s
  {
    if s != [] {
      var rest := Split(s[1..], d);
      JoinSplit(s[1..], d);
      if s[0] == d {
        assert ([""] + rest)[1..] == rest;
      } else {
        var r := [[s[0]] + rest[0]] + rest[1..];
        assert r[1..] == rest[1..];
        if |rest| > 1 {
          assert rest[1..] == rest[1..];
          assert Join(rest, d) == rest[0] + [d] + Join(rest[1..], d);
        }
      }
    }
  }

  /**
   * `s.splitlines()` with '\n' as the only line boundary: no piece for a
   * trailing newline and none at all for the empty text.
   */
  function SplitLines(s: string): (r: seq<string>)
    ensures forall i :: 0 <= i < |r| ==> '\n' !in r[i]
  {
    if s == [] then []
    else
      var pieces := Split(s, '\n');
      if s[|s| - 1] == '\n' then pieces[..|pieces| - 1] else pieces
  }

  /** Output that prints each line followed by a newline splits back into those lines. */
  lemma SplitLinesOfTerminated(lines: seq<string>)
    requires forall i :: 0 <= i < |lines| ==> '\n' !in lines[i]
    ensures SplitLines(Join(lines + [""], '\n')) == lines
  {
    var s := Join(lines + [""], '\n');
    SplitJoin(lines + [""], '\n');
    if lines != [] {
      JoinEndsWithSeparator(lines, '\n');
      assert (lines + [""])[..|lines|] == lines;
    }
  }

  lemma {:induction false} JoinEndsWithSeparator(parts: seq<string>, d: char)
    requires |parts| >= 1
    ensures var s := Join(parts + [""], d); |s| > 0 && s[|s| - 1] == d
  {
    if |parts| == 1 {
      assert Join(parts + [""], d) == parts[0] + [d] + "";
    } else {
      assert (parts + [""])[1..] == parts[1..] + [""];
      JoinEndsWithSeparator(parts[1..], d);
    }
  }

  predicate IsAsciiDigit(c: char) { '0' <= c <= '9' }

  /** `s.isnumeric()`, restricted to the ASCII digits. */
  predicate IsNumeric(s: string)
  {
    |s| > 0 && forall i :: 0 <= i < |s| ==> IsAsciiDigit(s[i])
  }

  /** The value of a run of decimal digits, most significant first. */
  function DigitsValue(s: string): nat
    requires forall i :: 0 <= i < |s| ==> IsAsciiDigit(s[i])
  {
    if s == [] then 0
    else
      assert IsAsciiDigit(s[|s| - 1]);
      10 * DigitsValue(s[..|s| - 1]) + (s[|s| - 1] as int - '0' as int)
  }

  /** `int(s)` for decimal text with an optional sign; `None` stands for ValueError. */
  function ParseInt(s: string): (r: Option<int>)
    ensures r.Some? <==> IsNumeric(s) || (|s| > 1 && s[0] in "+-" && IsNumeric(s[1..]))
  {
    if IsNumeric(s) then Some(DigitsValue(s) as int)
    else if |s| > 1 && s[0] == '-' && IsNumeric(s[1..]) then Some(-(DigitsValue(s[1..]) as int))
    else if |s| > 1 && s[0] == '+' && IsNumeric(s[1..]) then Some(DigitsValue(s[1..]) as int)
    else None
  }

  function DigitChar(d: nat): (c: char)
    requires d < 10
    ensures IsAsciiDigit(c) && c as int - '0' as int == d
  {
    ('0' as int + d) as char
  }

  /** `str(n)` for a non-negative integer. */
  function NatToString(n: nat): (r: string)
    ensures IsNumeric(r)
  {
    if n < 10 then [DigitChar(n)]
    else NatToString(n / 10) + [DigitChar(n % 10)]
  }

  /** `str(i)`. */
  function IntToString(i: int): (r: string)
    ensures |r| > 0
    ensures forall k :: 0 <= k < |r| ==> IsAsciiDigit(r[k]) || r[k] == '-'
  {
    if i < 0 then "-" + NatToString(-i) else NatToString(i)
  }

  lemma {:induction false} DigitsValueOfNat(n: nat)
    ensures DigitsValue(NatToString(n)) == n
  {
    if n >= 10 {
      var s := NatToString(n);
      assert s[..|s| - 1] == NatToString(n / 10);
      DigitsValueOfNat(n / 10);
    }
  }

  /** `int(str(i)) == i`. */
  lemma ParseIntToString(i: int)
    ensures ParseInt(IntToString(i)) == Some(i)
  {
    if i < 0 {
      var s := IntToString(i);
      assert s[1..] == NatToString(-i);
      assert !IsAsciiDigit(s[0]);
      DigitsValueOfNat(-i);
    } else {
      DigitsValueOfNat(i);
    }
  }
}
