/**
 * `shlex.split(s)`: Python's `shlex` lexer in POSIX mode with whitespace
 * splitting and no comment characters. Whitespace is space, tab, CR and LF;
 * `'` and `"` quote, `\` escapes outside single quotes. Inside double quotes a
 * backslash only escapes `"` and `\`; before any other character it is kept.
 */
module Shlex {
  import opened Wrappers
  import opened Exceptions
  import Text

  predicate IsSpace(c: char) {
    c == ' ' || c == '\t' || c == '\r' || c == '\n'
  }

  /** A character with a lexical meaning other than "part of a word". */
  predicate IsSpecial(c: char) {
    c == '\'' || c == '"' || c == '\\'
  }

  /** Text with no quotes and no backslashes: splitting it is plain field splitting. */
  predicate Plain(s: string) {
    forall i :: 0 <= i < |s| ==> !IsSpecial(s[i])
  }

  /** The lexer states of `shlex.read_token` (`' '`, `'a'`, a quote, or an escape). */
  datatype LexState = Between | InWord | InSingle | InDouble | EscWord | EscDouble

  /**
   * Runs the lexer over `s` from `st`, with the partial token `tok`, whether the
   * current token saw a quote, and the tokens already produced.
   */
  function Lex(s: string, st: LexState, tok: string, quoted: bool, acc: seq<string>)
    : (r: Result<seq<string>, Raised>)
    ensures r.Err? ==> r.error.ValueError?
    decreases |s|
  {
    if |s| == 0 then
      match st
      case Between => Ok(acc)
      case InWord => Ok(if tok != "" || quoted then acc + [tok] else acc)
      case InSingle => Err(ValueError("No closing quotation"))
      case InDouble => Err(ValueError("No closing quotation"))
      case EscWord => Err(ValueError("No escaped character"))
      case EscDouble => Err(ValueError("No escaped character"))
    else
      var c := s[0];
      var rest := s[1..];
      match st
      case Between =>
        if IsSpace(c) then Lex(rest, Between, "", false, acc)
        else if c == '\\' then Lex(rest, EscWord, tok, quoted, acc)
        else if c == '\'' then Lex(rest, InSingle, tok, true, acc)
        else if c == '"' then Lex(rest, InDouble, tok, true, acc)
        else Lex(rest, InWord, [c], quoted, acc)
      case InWord =>
        if IsSpace(c) then
          Lex(rest, Between, "", false, if tok != "" || quoted then acc + [tok] else acc)
        else if c == '\\' then Lex(rest, EscWord, tok, quoted, acc)
        else if c == '\'' then Lex(rest, InSingle, tok, true, acc)
        else if c == '"' then Lex(rest, InDouble, tok, true, acc)
        else Lex(rest, InWord, tok + [c], quoted, acc)
      case InSingle =>
        if c == '\'' then Lex(rest, InWord, tok, quoted, acc)
        else Lex(rest, InSingle, tok + [c], quoted, acc)
      case InDouble =>
        if c == '"' then Lex(rest, InWord, tok, quoted, acc)
        else if c == '\\' then Lex(rest, EscDouble, tok, quoted, acc)
        else Lex(rest, InDouble, tok + [c], quoted, acc)
      case EscWord =>
        Lex(rest, InWord, tok + [c], quoted, acc)
      case EscDouble =>
        var kept := if c != '\\' && c != '"' then "\\" else "";
        Lex(rest, InDouble, tok + kept + [c], quoted, acc)
  }

  /** `shlex.split(s)`; raises `ValueError` on an unclosed quote or a trailing backslash. */
  function Split(s: string): (r: Result<seq<string>, Raised>)
    ensures r.Err? ==> r.error.ValueError?
  {
    Lex(s, Between, "", false, [])
  }

  // ---------------------------------------------------------------------------
  // Reference definition: whitespace-separated fields.

  /** The longest prefix of `s` without whitespace. */
  function FirstWord(s: string): (w: string)
    ensures |w| <= |s| && w == s[..|w|]
    ensures forall i :: 0 <= i < |w| ==> !IsSpace(w[i])
    ensures |w| < |s| ==> IsSpace(s[|w|])
  {
    if |s| == 0 || IsSpace(s[0]) then "" else [s[0]] + FirstWord(s[1..])
  }

  /** The maximal runs of non-whitespace characters of `s`, in order. */
  function Fields(s: string): (r: seq<string>)
    decreases |s|
  {
    if |s| == 0 then []
    else if IsSpace(s[0]) then Fields(s[1..])
    else
      var w := FirstWord(s);
      [w] + Fields(s[|w|..])
  }

  /** No field is empty or contains whitespace. */
  lemma {:induction false} FieldsAreWords(s: string)
    ensures forall k :: 0 <= k < |Fields(s)| ==> Fields(s)[k] != ""
    ensures forall k, i :: 0 <= k < |Fields(s)| && 0 <= i < |Fields(s)[k]| ==> !IsSpace(Fields(s)[k][i])
    decreases |s|
  {
    if |s| == 0 {
    } else if IsSpace(s[0]) {
      FieldsAreWords(s[1..]);
    } else {
      var w := FirstWord(s);
      assert w != "" by { assert w[0] == s[0]; }
      FieldsAreWords(s[|w|..]);
    }
  }

  /** In the middle of a plain word, the lexer finishes the word and then splits fields. */
  lemma {:induction false} LexPlainInWord(s: string, tok: string, acc: seq<string>)
    requires Plain(s) && tok != ""
    ensures Lex(s, InWord, tok, false, acc)
         == Ok(acc + [tok + FirstWord(s)] + Fields(s[|FirstWord(s)|..]))
    decreases |s|, 0
  {
    if |s| == 0 {
      assert tok + FirstWord(s) == tok;
      assert acc + [tok] + Fields(s) == acc + [tok];
    } else if IsSpace(s[0]) {
      assert FirstWord(s) == "";
      assert tok + FirstWord(s) == tok;
      LexPlainBetween(s[1..], acc + [tok]);
      assert Fields(s) == Fields(s[1..]);
    } else {
      var w, w1 := FirstWord(s), FirstWord(s[1..]);
      assert Lex(s, InWord, tok, false, acc) == Lex(s[1..], InWord, tok + [s[0]], false, acc) by {
        assert !IsSpecial(s[0]);
      }
      PlainTail(s);
      LexPlainInWord(s[1..], tok + [s[0]], acc);
      assert w == [s[0]] + w1;
      assert s[|w|..] == s[1..][|w1|..];
      Text.Regroup(tok, [s[0]], w1);
    }
  }

  /** Between tokens, the lexer on plain text appends exactly its fields. */
  lemma {:induction false} LexPlainBetween(s: string, acc: seq<string>)
    requires Plain(s)
    ensures Lex(s, Between, "", false, acc) == Ok(acc + Fields(s))
    decreases |s|, 1
  {
    if |s| == 0 {
      assert acc + Fields(s) == acc;
    } else {
      assert !IsSpecial(s[0]);
      PlainTail(s);
      if IsSpace(s[0]) {
        LexPlainBetween(s[1..], acc);
      } else {
        LexPlainInWord(s[1..], [s[0]], acc);
        assert FirstWord(s) == [s[0]] + FirstWord(s[1..]);
        assert s[|FirstWord(s)|..] == s[1..][|FirstWord(s[1..])|..];
        assert Fields(s) == [FirstWord(s)] + Fields(s[|FirstWord(s)|..]);
        assert acc + [[s[0]] + FirstWord(s[1..])] + Fields(s[1..][|FirstWord(s[1..])|..])
            == acc + Fields(s);
      }
    }
  }

  /** Without quotes or backslashes, `shlex.split` is whitespace field splitting and never fails. */
  lemma SplitPlainIsFields(s: string)
    requires Plain(s)
    ensures Split(s) == Ok(Fields(s))
  {
    LexPlainBetween(s, []);
    assert [] + Fields(s) == Fields(s);
  }

  /** The first word of a word followed by a space is that word. */
  lemma {:induction false} FirstWordOfWord(w: string, rest: string)
    requires forall i :: 0 <= i < |w| ==> !IsSpace(w[i])
    ensures FirstWord(w + " " + rest) == w
  {
    if |w| > 0 {
      assert (w + " " + rest)[1..] == w[1..] + " " + rest;
      FirstWordOfWord(w[1..], rest);
    }
  }

  /** A non-empty word followed by a space is the first field. */
  lemma FieldsOfWord(w: string, rest: string)
    requires w != "" && forall i :: 0 <= i < |w| ==> !IsSpace(w[i])
    ensures Fields(w + " " + rest) == [w] + Fields(rest)
  {
    var s := w + " " + rest;
    FirstWordOfWord(w, rest);
    assert s[|w|..] == " " + rest;
    assert (" " + rest)[1..] == rest;
  }

  /** A single word is its own only field. */
  lemma FieldsOfLastWord(w: string)
    requires w != "" && forall i :: 0 <= i < |w| ==> !IsSpace(w[i])
    ensures Fields(w) == [w]
  {
    LastWordIsFirst(w);
    assert w[|w|..] == "";
  }

  lemma {:induction false} LastWordIsFirst(w: string)
    requires forall i :: 0 <= i < |w| ==> !IsSpace(w[i])
    ensures FirstWord(w) == w
  {
    if |w| > 0 {
      LastWordIsFirst(w[1..]);
    }
  }

  /** A non-empty argument needing no quoting: no whitespace, quote or backslash. */
  predicate PlainWord(w: string) {
    w != "" && forall i :: 0 <= i < |w| ==> !IsSpecial(w[i]) && !IsSpace(w[i])
  }

  /** Joining plain words with single spaces gives plain text. */
  lemma {:induction false} JoinPlain(ws: seq<string>)
    requires forall k :: 0 <= k < |ws| ==> PlainWord(ws[k])
    ensures Plain(Text.Join(ws, " "))
  {
    if |ws| > 1 {
      JoinPlain(ws[1..]);
      var a, t := ws[0], Text.Join(ws[1..], " ");
      var s := a + " " + t;
      assert PlainWord(a);
      forall i | 0 <= i < |s| ensures !IsSpecial(s[i]) {
        if i < |a| { assert s[i] == a[i]; }
        else if i > |a| { assert s[i] == t[i - |a| - 1]; }
      }
    }
  }

  /** `shlex.split` inverts joining plain words with single spaces. */
  lemma {:induction false} SplitJoinRoundTrip(ws: seq<string>)
    requires forall k :: 0 <= k < |ws| ==> PlainWord(ws[k])
    ensures Split(Text.Join(ws, " ")) == Ok(ws)
  {
    JoinPlain(ws);
    SplitPlainIsFields(Text.Join(ws, " "));
    JoinFields(ws);
  }

  lemma {:induction false} JoinFields(ws: seq<string>)
    requires forall k :: 0 <= k < |ws| ==> PlainWord(ws[k])
    ensures Fields(Text.Join(ws, " ")) == ws
  {
    if |ws| == 1 {
      FieldsOfLastWord(ws[0]);
    } else if |ws| > 1 {
      JoinFields(ws[1..]);
      FieldsOfWord(ws[0], Text.Join(ws[1..], " "));
      assert [ws[0]] + ws[1..] == ws;
    }
  }

  /** `"/bin/echo Hello world"` splits into three arguments. */
  lemma SplitEchoExample(s: string)
    requires s == "/bin/echo Hello world"
    ensures Split(s) == Ok(["/bin/echo", "Hello", "world"])
  {
    var ws := ["/bin/echo", "Hello", "world"];
    assert PlainWord(ws[0]) && PlainWord(ws[1]) && PlainWord(ws[2]);
    assert Text.Join(ws, " ") == s;
    SplitJoinRoundTrip(ws);
  }

  /** The tail of plain text is plain. */
  lemma PlainTail(s: string)
    requires Plain(s) && |s| > 0
    ensures Plain(s[1..]) && !IsSpecial(s[0])
  {
    assert forall i :: 0 <= i < |s[1..]| ==> s[1..][i] == s[i + 1];
  }

  /** An unclosed single quote after plain text makes `shlex.split` raise. */
  lemma {:induction false} UnclosedQuoteFails(s: string, st: LexState, tok: string, quoted: bool, acc: seq<string>)
    requires Plain(s) && (st == Between || st == InWord)
    ensures Lex(s + "'", st, tok, quoted, acc) == Err(ValueError("No closing quotation"))
    decreases |s|
  {
    var t := s + "'";
    if |s| == 0 {
      assert t == "'";
      assert Lex("", InSingle, tok, true, acc) == Err(ValueError("No closing quotation"));
    } else {
      PlainTail(s);
      assert t[0] == s[0] && t[1..] == s[1..] + "'";
      var c := s[0];
      if IsSpace(c) {
        UnclosedQuoteFails(s[1..], Between, "", false,
          if st == InWord && (tok != "" || quoted) then acc + [tok] else acc);
      } else if st == Between {
        UnclosedQuoteFails(s[1..], InWord, [c], quoted, acc);
      } else {
        UnclosedQuoteFails(s[1..], InWord, tok + [c], quoted, acc);
      }
    }
  }
}
