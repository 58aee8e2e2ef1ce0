/**
 * The single-quote escape that `injectEnvironmentIntoTerminal` applies to the flake directory
 * before placing it inside a single-quoted word of a shell command (src/extension.ts, line 262),
 * and the POSIX shell's own reading of such a word (Shell Command Language, section 2.2.1
 * Escape Character and section 2.2.2 Single-Quotes), against which the escape is proved right.
 */
module ShellQuote {
  import opened Wrappers
  import opened Text

  /** What replaces each single quote: close the quoted string, an escaped quote, reopen. */
  const QuoteReplacement: string := "'\\''"

  /** `s.replace(/'/g, "'\\''")`. */
  function Escape(s: string): string
    decreases |s|
  {
    if s == [] then []
    else (if s[0] == '\'' then QuoteReplacement else [s[0]]) + Escape(s[1..])
  }

  /** The single-quoted word the command embeds: `'${escaped}'`. */
  function Quote(s: string): string
  {
    "'" + Escape(s) + "'"
  }

  function PrependAll(prefix: string, o: Option<string>): Option<string>
  {
    match o
    case Some(t) => Some(prefix + t)
    case None => None
  }

  /** The shell's reading of a word built from single-quoted strings and backslash escapes,
      outside quotes: a `'` opens a quoted string; a backslash keeps the next character literal,
      except that backslash-newline is removed; the end of the input ends the word. Any other
      unquoted character is outside this model (None). */
  function Unquoted(w: string): Option<string>
    decreases |w|
  {
    if w == [] then Some([])
    else if w[0] == '\'' then InQuotes(w[1..])
    else if w[0] == '\\' && |w| >= 2 then
      if w[1] == '\n' then Unquoted(w[2..]) else PrependAll([w[1]], Unquoted(w[2..]))
    else None
  }

  /** Inside single quotes every character is literal, up to the closing `'`; an unterminated
      quoted string is not a word (None). */
  function InQuotes(w: string): Option<string>
    decreases |w|
  {
    if w == [] then None
    else if w[0] == '\'' then Unquoted(w[1..])
    else PrependAll([w[0]], InQuotes(w[1..]))
  }

  /** Inside quotes, the replacement sequence reads as one literal quote: the quoted string
      is closed, `\'` gives a quote, and a new quoted string is opened. */
  lemma ReplacementReadsAsQuote(tail: string)
    ensures InQuotes(QuoteReplacement + tail) == PrependAll("'", InQuotes(tail))
  {
    var w := QuoteReplacement + tail;
    assert w[0] == '\'' && w[1..] == "\\''" + tail;
    var w1 := w[1..];
    assert w1[0] == '\\' && w1[1] == '\'' && w1[2..] == "'" + tail;
    assert ("'" + tail)[1..] == tail;
    assert Unquoted("'" + tail) == InQuotes(tail);
  }

  lemma PrependAllAppend(a: string, b: string, o: Option<string>)
    ensures PrependAll(a + b, o) == PrependAll(a, PrependAll(b, o))
  {
    match o
    case Some(t) => assert a + b + t == a + (b + t);
    case None =>
  }

  /** Inside quotes, the escaped text reads back as the original, and the quote that follows
      it closes the string. */
  lemma {:induction false} InQuotesEscape(s: string, rest: string)
    ensures InQuotes(Escape(s) + "'" + rest) == PrependAll(s, Unquoted(rest))
    decreases |s|
  {
    if s == [] {
      assert Escape(s) + "'" + rest == "'" + rest;
      assert ("'" + rest)[1..] == rest;
      assert InQuotes("'" + rest) == Unquoted(rest);
      match Unquoted(rest)
      case Some(t) => assert s + t == t;
      case None =>
    } else {
      var head := if s[0] == '\'' then QuoteReplacement else [s[0]];
      var tail := Escape(s[1..]) + "'" + rest;
      assert Escape(s) == head + Escape(s[1..]);
      assert Escape(s) + "'" + rest == head + tail;
      InQuotesEscape(s[1..], rest);
      if s[0] == '\'' {
        ReplacementReadsAsQuote(tail);
      } else {
        assert (head + tail)[0] == s[0] && (head + tail)[1..] == tail;
      }
      assert InQuotes(head + tail) == PrependAll([s[0]], PrependAll(s[1..], Unquoted(rest)));
      PrependAllAppend([s[0]], s[1..], Unquoted(rest));
      assert [s[0]] + s[1..] == s;
    }
  }

  /** Round trip: the shell reads the quoted, escaped text back as exactly the original, as
      one complete word; no character of it escapes the quoting. */
  lemma QuoteRoundTrip(s: string)
    ensures Unquoted(Quote(s)) == Some(s)
  {
    InQuotesEscape(s, "");
    assert Quote(s)[1..] == Escape(s) + "'" + "";
    assert s + [] == s;
  }

  /** Text without a single quote is left as it is. */
  lemma {:induction false} EscapeWithoutQuote(s: string)
    requires '\'' !in s
    ensures Escape(s) == s
    decreases |s|
  {
    if s != [] {
      assert '\'' !in s[1..] by {
        forall j | 0 <= j < |s[1..]| ensures s[1..][j] != '\'' {
          assert s[1..][j] == s[j + 1];
        }
      }
      EscapeWithoutQuote(s[1..]);
      assert s == [s[0]] + s[1..];
    }
  }

  /** Every `'` of the output belongs to a replacement sequence, which holds three of them, and
      every other character is copied: the output grows by three characters per quote. */
  lemma {:induction false} EscapeCounts(s: string)
    ensures Count(Escape(s), '\'') == 3 * Count(s, '\'')
    ensures |Escape(s)| == |s| + 3 * Count(s, '\'')
    decreases |s|
  {
    if s != [] {
      EscapeCounts(s[1..]);
      var head := if s[0] == '\'' then QuoteReplacement else [s[0]];
      CountAppend(head, Escape(s[1..]), '\'');
      if s[0] == '\'' {
        assert Count(head, '\'') == 3;
      } else {
        assert Count(head, '\'') == 0;
      }
    }
  }

  /** Escaping adds no character other than quotes and backslashes. */
  lemma {:induction false} EscapeAddsOnlyQuoting(s: string, c: char)
    requires c != '\'' && c != '\\' && c !in s
    ensures c !in Escape(s)
    decreases |s|
  {
    if s != [] {
      assert c !in s[1..] by {
        forall j | 0 <= j < |s[1..]| ensures s[1..][j] != c {
          assert s[1..][j] == s[j + 1];
        }
      }
      EscapeAddsOnlyQuoting(s[1..], c);
      var head := if s[0] == '\'' then QuoteReplacement else [s[0]];
      assert c !in head;
      assert Escape(s) == head + Escape(s[1..]);
    }
  }

  /** The example of a directory holding a quote. */
  lemma QuotedExample()
    ensures Quote("o'b") == "'o'\\''b'"
    ensures Unquoted("'o'\\''b'") == Some("o'b")
  {
    assert Escape("o'b") == "o'\\''b";
    QuoteRoundTrip("o'b");
  }
}
