/**
 * adb_common.py: the argument list every adb invocation starts with, and the
 * single-quote escaping applied to each path handed to the device's shell.
 */
module AdbCommon {
  import opened Wrappers

  /**
   * What running one adb command yields: whether it failed (non-zero exit
   * status) and its captured output. Running commands is not modelled; these
   * values are inputs to the operations that issue commands.
   */
  datatype AdbResult = AdbResult(errored: bool, output: string)

  /**
   * `make_adb_command(subcommand)`: `adb`, then `-t <device>` when a device
   * is configured (the empty string counts as none), then the subcommand.
   */
  function MakeAdbCommand(device: string, subcommand: string): (r: seq<string>)
    ensures |r| >= 2 && r[0] == "adb" && r[|r| - 1] == subcommand
    ensures device == "" ==> |r| == 2
    ensures device != "" ==> |r| == 4 && r[1] == "-t" && r[2] == device
  {
    var adbCommand := ["adb"];
    var adbCommand := if device != "" then adbCommand + ["-t", device] else adbCommand;
    adbCommand + [subcommand]
  }

  /** The prefix does not depend on the subcommand. */
  lemma AdbPrefixShared(device: string, a: string, b: string)
    ensures MakeAdbCommand(device, a)[..|MakeAdbCommand(device, a)| - 1]
         == MakeAdbCommand(device, b)[..|MakeAdbCommand(device, b)| - 1]
  {
  }

  /** The five characters that stand for one quote: close, double-quoted quote, reopen. */
  const GluedQuote: string := "'\"'\"'"

  /** Number of single quotes in `s`. */
  function Quotes(s: string): nat
  {
    multiset(s)['\'']
  }

  /** `s.replace("'", "'\"'\"'")`. */
  function ReplaceQuotes(s: string): (r: string)
    ensures |r| == |s| + 4 * Quotes(s)
    ensures Quotes(s) == 0 ==> r == s
  {
    if s == [] then ""
    else
      assert s == [s[0]] + s[1..];
      (if s[0] == '\'' then GluedQuote else [s[0]]) + ReplaceQuotes(s[1..])
  }

  /** `escape_sh_str(s)`: the text wrapped in single quotes, each quote glued back in. */
  function EscapeShStr(s: string): (r: string)
    ensures |r| == |s| + 2 + 4 * Quotes(s)
    ensures r[0] == '\'' && r[|r| - 1] == '\''
    ensures Quotes(s) == 0 ==> r == "'" + s + "'"
  {
    "'" + ReplaceQuotes(s) + "'"
  }

  /** Where a POSIX shell reader is within one word. */
  datatype QuoteState = Bare | InSingle | InDouble

  /** Characters that end, split or expand an unquoted word. */
  predicate IsShellSpecial(c: char)
  {
    c in " \t\n|&;<>()$`\\\"'*?[#~="
  }

  /**
   * Reads one shell word the way a POSIX shell removes quotes: inside single
   * quotes every character is literal up to the next single quote; inside
   * double quotes every character but `"`, `\`, `$` and backquote is literal.
   * `None` for a word this reader does not accept: an unterminated quote, an
   * expansion, or an unquoted special character.
   */
  function ShellWord(w: string, state: QuoteState): Option<string>
  {
    if w == [] then (if state == Bare then Some("") else None)
    else
      var c := w[0];
      match state
      case Bare =>
        if c == '\'' then ShellWord(w[1..], InSingle)
        else if c == '"' then ShellWord(w[1..], InDouble)
        else if IsShellSpecial(c) then None
        else Prepend(c, ShellWord(w[1..], Bare))
      case InSingle =>
        if c == '\'' then ShellWord(w[1..], Bare)
        else Prepend(c, ShellWord(w[1..], InSingle))
      case InDouble =>
        if c == '"' then ShellWord(w[1..], Bare)
        else if c in "\\$`" then None
        else Prepend(c, ShellWord(w[1..], InDouble))
  }

  function Prepend(c: char, r: Option<string>): Option<string>
  {
    if r.None? then None else Some([c] + r.value)
  }

  function PrependAll(s: string, r: Option<string>): Option<string>
  {
    if r.None? then None else Some(s + r.value)
  }

  lemma ReadLiteral(c: char, tail: string)
    requires c != '\''
    ensures ShellWord([c] + tail, InSingle) == Prepend(c, ShellWord(tail, InSingle))
  {
    assert ([c] + tail)[1..] == tail;
  }

  /** Inside single quotes, the glued quote reads as one literal quote. */
  lemma ReadGluedQuote(tail: string)
    ensures ShellWord(GluedQuote + tail, InSingle) == Prepend('\'', ShellWord(tail, InSingle))
  {
    var w := GluedQuote + tail;
    assert w[1..] == "\"'\"'" + tail;
    assert w[1..][1..] == "'\"'" + tail;
    assert w[1..][1..][1..] == "\"'" + tail;
    assert w[1..][1..][1..][1..] == "'" + tail;
    assert w[1..][1..][1..][1..][1..] == tail;
    assert ShellWord(w[1..][1..][1..][1..], Bare) == ShellWord(tail, InSingle);
    assert ShellWord(w[1..][1..][1..], InDouble) == ShellWord(tail, InSingle);
    assert ShellWord(w[1..][1..], InDouble) == Prepend('\'', ShellWord(tail, InSingle));
    assert ShellWord(w[1..], Bare) == Prepend('\'', ShellWord(tail, InSingle));
  }

  lemma PrependAllCons(s: string, x: Option<string>)
    requires s != []
    ensures Prepend(s[0], PrependAll(s[1..], x)) == PrependAll(s, x)
  {
    if x.Some? {
      assert [s[0]] + (s[1..] + x.value) == s + x.value;
    }
  }

  lemma ConcatAssoc(a: string, b: string, c: string)
    ensures (a + b) + c == a + (b + c)
  {
  }

  lemma {:induction false} ReadReplaced(s: string, rest: string)
    ensures ShellWord(ReplaceQuotes(s) + rest, InSingle) == PrependAll(s, ShellWord(rest, InSingle))
  {
    if s == [] {
      assert ReplaceQuotes(s) + rest == rest;
      var x := ShellWord(rest, InSingle);
      if x.Some? {
        assert s + x.value == x.value;
      }
    } else {
      var mid := ReplaceQuotes(s[1..]);
      var tail := mid + rest;
      ReadReplaced(s[1..], rest);
      if s[0] == '\'' {
        assert ReplaceQuotes(s) == GluedQuote + mid;
        ConcatAssoc(GluedQuote, mid, rest);
        ReadGluedQuote(tail);
      } else {
        assert ReplaceQuotes(s) == [s[0]] + mid;
        ConcatAssoc([s[0]], mid, rest);
        ReadLiteral(s[0], tail);
      }
      PrependAllCons(s, ShellWord(rest, InSingle));
    }
  }

  /**
   * The shell reads an escaped word back as exactly the original text, so a
   * path passed through `escape_sh_str` reaches the device's command unchanged.
   */
  lemma EscapeRoundTrip(s: string)
    ensures ShellWord(EscapeShStr(s), Bare) == Some(s)
  {
    var w := EscapeShStr(s);
    assert w[1..] == ReplaceQuotes(s) + "'";
    ReadReplaced(s, "'");
    assert ShellWord("'", InSingle) == Some("");
    assert s + "" == s;
  }

  /** Plain wrapping in quotes, without gluing, does not survive a quote in the text. */
  lemma UnescapedQuoteBreaks()
    ensures ShellWord("'" + "it's" + "'", Bare) != Some("it's")
  {
    assert ShellWord("'", Bare) == None by {
      assert "'"[1..] == "";
    }
    assert ShellWord("s'", Bare) == None by {
      assert "s'"[1..] == "'";
    }
    assert ShellWord("'s'", InSingle) == None by {
      assert "'s'"[1..] == "s'";
    }
    assert ShellWord("t's'", InSingle) == None by {
      assert "t's'"[1..] == "'s'";
    }
    assert ShellWord("it's'", InSingle) == None by {
      assert "it's'"[1..] == "t's'";
    }
    assert ("'" + "it's" + "'")[1..] == "it's'";
  }

  /** Each name wrapped by `escape_sh_str`. */
  function EscapeAll(names: seq<string>): (r: seq<string>)
    ensures |r| == |names|
    ensures forall j :: 0 <= j < |names| ==> r[j] == EscapeShStr(names[j])
  {
    seq(|names|, j requires 0 <= j < |names| => EscapeShStr(names[j]))
  }

  /** The shell reads each escaped name back as that name, one word each. */
  lemma EscapeAllReadsBack(names: seq<string>)
    ensures forall j :: 0 <= j < |names| ==> ShellWord(EscapeAll(names)[j], Bare) == Some(names[j])
  {
    forall j | 0 <= j < |names|
      ensures ShellWord(EscapeAll(names)[j], Bare) == Some(names[j])
    {
      EscapeRoundTrip(names[j]);
    }
  }
}
