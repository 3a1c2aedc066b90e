/**
 escapeBash of server/internal/api/handlers.go, read back by the quoting rules
 of sections 2.2.1 and 2.2.2 of the POSIX Shell Command Language.
 */
module ShellQuoting {

  /** Every single quote becomes '\'' (close, escaped quote, reopen). */
  function EscapeBash(s: string): string {
    if s == "" then ""
    else (if s[0] == '\'' then "'\\''" else [s[0]]) + EscapeBash(s[1..])
  }

  /** A word that was read, and the text after it. */
  datatype Lexed = Word(text: string, rest: string) | Special

  /** Characters that end a word when they are not quoted. */
  predicate EndsWord(c: char) {
    || c == ' ' || c == '\t' || c == '\n' || c == '|' || c == '&' || c == ';'
    || c == '<' || c == '>' || c == '(' || c == ')'
  }

  /** Characters that start an expansion or another kind of quoting. */
  predicate Expands(c: char) {
    || c == '$' || c == '`' || c == '\"' || c == '*' || c == '?' || c == '['
    || c == '#' || c == '~' || c == '=' || c == '%'
  }

  /** Reads on outside quotes; `text` is what the word holds so far. */
  function ReadWord(s: string, text: string): Lexed
    decreases |s|
  {
    if s == "" || EndsWord(s[0]) then Word(text, s)
    else if s[0] == '\'' then ReadQuoted(s[1..], text)
    else if s[0] == '\\' then
      if |s| == 1 then Special
      else if s[1] == '\n' then ReadWord(s[2..], text)
      else ReadWord(s[2..], text + [s[1]])
    else if Expands(s[0]) then Special
    else ReadWord(s[1..], text + [s[0]])
  }

  /** Reads on inside single quotes, where every other character stands for itself. */
  function ReadQuoted(s: string, text: string): Lexed
    decreases |s|
  {
    if s == "" then Special
    else if s[0] == '\'' then ReadWord(s[1..], text)
    else ReadQuoted(s[1..], text + [s[0]])
  }

  /** Inside quotes, the escape sequence reads as one quote. */
  lemma EscapedQuoteReads(tail: string, text: string)
    ensures ReadQuoted("'\\''" + tail, text) == ReadQuoted(tail, text + "'")
  {
    var reopened, escaped := "'" + tail, "\\''" + tail;
    assert ("'\\''" + tail)[1..] == escaped;
    assert escaped[2..] == reopened;
    assert reopened[1..] == tail;
    assert ReadWord(reopened, text + "'") == ReadQuoted(tail, text + "'");
  }

  lemma PlainReads(c: char, tail: string, text: string)
    requires c != '\''
    ensures ReadQuoted([c] + tail, text) == ReadQuoted(tail, text + [c])
  {
    assert ([c] + tail)[1..] == tail;
  }

  lemma {:induction false} QuotedReadsBack(s: string, text: string, rest: string)
    ensures ReadQuoted(EscapeBash(s) + "'" + rest, text) == ReadWord(rest, text + s)
    decreases s
  {
    if s == "" {
      assert (EscapeBash(s) + "'" + rest)[1..] == rest;
      assert text + s == text;
    } else {
      var tail := EscapeBash(s[1..]) + "'" + rest;
      QuotedReadsBack(s[1..], text + [s[0]], rest);
      assert text + [s[0]] + s[1..] == text + s;
      if s[0] == '\'' {
        assert EscapeBash(s) + "'" + rest == "'\\''" + tail;
        EscapedQuoteReads(tail, text);
      } else {
        assert EscapeBash(s) + "'" + rest == [s[0]] + tail;
        PlainReads(s[0], tail, text);
      }
    }
  }

  /**
   A single-quoted escaped string is exactly one shell word, equal to the
   original, wherever the word ends after the closing quote.
   */
  lemma SingleQuotedIsOneWord(s: string, rest: string)
    requires rest == "" || EndsWord(rest[0])
    ensures ReadWord("'" + EscapeBash(s) + "'" + rest, "") == Word(s, rest)
  {
    var inner := EscapeBash(s) + "'" + rest;
    assert "'" + EscapeBash(s) + "'" + rest == "'" + inner;
    assert ("'" + inner)[1..] == inner;
    QuotedReadsBack(s, "", rest);
    assert "" + s == s;
    assert ReadWord(rest, s) == Word(s, rest);
  }
}
