/**
 * parseCommand from main.cpp, which splits the joined command line into the
 * argument vector handed to execvp, and the join of positionals that builds
 * that command line.
 */
module Command {

  /** Either quote character; both toggle the same in-quote flag. */
  predicate IsQuote(c: char)
  {
    c == '"' || c == '\''
  }

  /** The pending token, if any. */
  function Flush(current: string): seq<string>
  {
    if current != [] then [current] else []
  }

  /**
   * Reference reading of the scan: the tokens of `s` when the token being
   * built is `current` and the quote flag is `inQuote`.
   */
  function Scan(s: string, current: string, inQuote: bool): seq<string>
    decreases |s|
  {
    if s == [] then Flush(current)
    else if IsQuote(s[0]) then Scan(s[1..], current, !inQuote)
    else if s[0] == ' ' && !inQuote then Flush(current) + Scan(s[1..], [], inQuote)
    else Scan(s[1..], current + [s[0]], inQuote)
  }

  /** The tokens of a whole command line. */
  function Tokenize(command: string): seq<string>
  {
    Scan(command, [], false)
  }

  /** parseCommand(command): one pass over the characters. */
  method ParseCommand(command: string) returns (args: seq<string>)
    ensures args == Tokenize(command)
  {
    args := [];
    var current: string := [];
    var inQuote := false;
    var i := 0;
    while i < |command|
      invariant 0 <= i <= |command|
      invariant args + Scan(command[i..], current, inQuote) == Tokenize(command)
    {
      var c := command[i];
      assert command[i..][1..] == command[i + 1..];
      if IsQuote(c) {
        inQuote := !inQuote;
      } else if c == ' ' && !inQuote {
        assert args + (Flush(current) + Scan(command[i + 1..], [], inQuote))
            == (args + Flush(current)) + Scan(command[i + 1..], [], inQuote);
        if current != [] {
          args := args + [current];
          current := [];
        }
      } else {
        current := current + [c];
      }
      i := i + 1;
    }
    assert args + Flush(current) == Tokenize(command);
    if current != [] {
      args := args + [current];
    }
  }

  // ---------------------------------------------------------------- properties of the scan

  /** An empty or all-space line has no tokens. */
  lemma {:induction false} BlankHasNoTokens(s: string)
    requires forall i :: 0 <= i < |s| ==> s[i] == ' '
    ensures Tokenize(s) == []
    decreases |s|
  {
    if s != [] {
      BlankHasNoTokens(s[1..]);
    }
  }

  /** Every token is non-empty and holds no quote character. */
  lemma {:induction false} TokensWellFormed(s: string, current: string, inQuote: bool)
    requires forall k :: 0 <= k < |current| ==> !IsQuote(current[k])
    ensures forall t :: t in Scan(s, current, inQuote) ==> t != [] && forall k :: 0 <= k < |t| ==> !IsQuote(t[k])
    decreases |s|
  {
    if s == [] {
    } else if IsQuote(s[0]) {
      TokensWellFormed(s[1..], current, !inQuote);
    } else if s[0] == ' ' && !inQuote {
      TokensWellFormed(s[1..], [], inQuote);
    } else {
      TokensWellFormed(s[1..], current + [s[0]], inQuote);
    }
  }

  /** The concatenation of a sequence of tokens. */
  function Concat(ts: seq<string>): string
  {
    if ts == [] then [] else ts[0] + Concat(ts[1..])
  }

  lemma {:induction false} ConcatAppend(a: seq<string>, b: seq<string>)
    ensures Concat(a + b) == Concat(a) + Concat(b)
    decreases |a|
  {
    if a != [] {
      assert (a + b)[0] == a[0] && (a + b)[1..] == a[1..] + b;
      ConcatAppend(a[1..], b);
      calc {
        Concat(a + b);
        a[0] + Concat(a[1..] + b);
        a[0] + (Concat(a[1..]) + Concat(b));
        (a[0] + Concat(a[1..])) + Concat(b);
      }
    } else {
      assert a + b == b;
    }
  }

  /** The characters of s other than spaces, in order. */
  function WithoutSpaces(s: string): string
  {
    if s == [] then [] else (if s[0] == ' ' then [] else [s[0]]) + WithoutSpaces(s[1..])
  }

  /** Without quotes, the tokens are exactly the non-space characters, split at spaces. */
  lemma {:induction false} UnquotedConcat(s: string, current: string)
    requires forall i :: 0 <= i < |s| ==> !IsQuote(s[i])
    ensures Concat(Scan(s, current, false)) == current + WithoutSpaces(s)
    decreases |s|
  {
    if s == [] {
    } else if s[0] == ' ' {
      UnquotedConcat(s[1..], []);
      ConcatAppend(Flush(current), Scan(s[1..], [], false));
    } else {
      UnquotedConcat(s[1..], current + [s[0]]);
      assert current + [s[0]] + WithoutSpaces(s[1..]) == current + WithoutSpaces(s);
    }
  }

  /** Tokenize form of UnquotedConcat. */
  lemma TokensAreNonSpaceCharacters(s: string)
    requires forall i :: 0 <= i < |s| ==> !IsQuote(s[i])
    ensures Concat(Tokenize(s)) == WithoutSpaces(s)
  {
    UnquotedConcat(s, []);
  }

  /** After an unbalanced quote, all remaining characters, spaces included, join the pending token. */
  lemma {:induction false} OpenQuoteSwallowsRest(s: string, current: string)
    requires forall i :: 0 <= i < |s| ==> !IsQuote(s[i])
    ensures Scan(s, current, true) == Flush(current + s)
    decreases |s|
  {
    if s != [] {
      OpenQuoteSwallowsRest(s[1..], current + [s[0]]);
      assert s == [s[0]] + s[1..];
      assert current + [s[0]] + s[1..] == current + s;
    } else {
      assert current + s == current;
    }
  }

  // ---------------------------------------------------------------- join and round trip

  /** The positionals joined with single spaces, as main builds the command line. */
  function JoinWords(ws: seq<string>): string
  {
    if ws == [] then [] else if |ws| == 1 then ws[0] else ws[0] + " " + JoinWords(ws[1..])
  }

  lemma {:induction false} JoinAppend(ws: seq<string>, w: string)
    requires ws != []
    ensures JoinWords(ws + [w]) == JoinWords(ws) + " " + w
    decreases |ws|
  {
    if |ws| > 1 {
      assert (ws + [w])[1..] == ws[1..] + [w];
      JoinAppend(ws[1..], w);
    }
  }

  /** The join loop of main: a space before every positional but the first. */
  method Join(positionals: seq<string>) returns (command: string)
    ensures command == JoinWords(positionals)
  {
    command := [];
    var i := 0;
    while i < |positionals|
      invariant 0 <= i <= |positionals|
      invariant command == JoinWords(positionals[..i])
    {
      if i > 0 {
        command := command + " ";
        JoinAppend(positionals[..i], positionals[i]);
      }
      command := command + positionals[i];
      assert positionals[..i + 1] == positionals[..i] + [positionals[i]];
      i := i + 1;
    }
    assert positionals[..i] == positionals;
  }

  /** A plain word: no space and no quote character. */
  predicate IsPlainWord(w: string)
  {
    forall k :: 0 <= k < |w| ==> w[k] != ' ' && !IsQuote(w[k])
  }

  /** A run without quotes, and without spaces outside quotes, only extends the pending token. */
  lemma {:induction false} ScanRun(w: string, rest: string, current: string, inQuote: bool)
    requires forall k :: 0 <= k < |w| ==> !IsQuote(w[k]) && (inQuote || w[k] != ' ')
    ensures Scan(w + rest, current, inQuote) == Scan(rest, current + w, inQuote)
    decreases |w|
  {
    if w != [] {
      assert (w + rest)[0] == w[0] && (w + rest)[1..] == w[1..] + rest;
      ScanRun(w[1..], rest, current + [w[0]], inQuote);
      assert w == [w[0]] + w[1..];
      assert current + [w[0]] + w[1..] == current + w;
    } else {
      assert w + rest == rest && current + w == current;
    }
  }

  /**
   * A quoted phrase is one token: it keeps its spaces and loses its quotes, as in
   * foo "bar baz" qux. Either quote character closes what either opened.
   */
  lemma QuotedPhrase(x: string, phrase: string, z: string, open: char, close: char)
    requires x != [] && IsPlainWord(x) && z != [] && IsPlainWord(z) && IsQuote(open) && IsQuote(close)
    requires phrase != [] && forall k :: 0 <= k < |phrase| ==> !IsQuote(phrase[k])
    ensures Tokenize(x + [' ', open] + phrase + [close, ' '] + z) == [x, phrase, z]
  {
    var r1 := [open] + phrase + [close, ' '] + z;
    assert x + [' ', open] + phrase + [close, ' '] + z == x + ([' '] + r1);
    ScanRun(x, [' '] + r1, [], false);
    assert [] + x == x;
    assert ([' '] + r1)[1..] == r1;
    assert Scan([' '] + r1, x, false) == [x] + Scan(r1, [], false);
    QuotedTail(phrase, z, open, close);
  }

  lemma QuotedTail(phrase: string, z: string, open: char, close: char)
    requires z != [] && IsPlainWord(z) && IsQuote(open) && IsQuote(close)
    requires phrase != [] && forall k :: 0 <= k < |phrase| ==> !IsQuote(phrase[k])
    ensures Scan([open] + phrase + [close, ' '] + z, [], false) == [phrase, z]
  {
    var r2 := phrase + [close, ' '] + z;
    assert [open] + phrase + [close, ' '] + z == [open] + r2;
    QuoteStep(open, r2, [], false);
    CloseQuote(phrase, z, close);
    PlainToken(z);
    assert [phrase] + [z] == [phrase, z];
  }

  /** A quote character only flips the quote flag. */
  lemma QuoteStep(q: char, r: string, current: string, inQuote: bool)
    requires IsQuote(q)
    ensures Scan([q] + r, current, inQuote) == Scan(r, current, !inQuote)
  {
    assert ([q] + r)[1..] == r;
  }

  lemma CloseQuote(phrase: string, z: string, q: char)
    requires IsQuote(q) && phrase != [] && forall k :: 0 <= k < |phrase| ==> !IsQuote(phrase[k])
    ensures Scan(phrase + [q, ' '] + z, [], true) == [phrase] + Scan(z, [], false)
  {
    var r3 := [' '] + z;
    assert phrase + [q, ' '] + z == phrase + ([q] + r3);
    ScanRun(phrase, [q] + r3, [], true);
    assert [] + phrase == phrase;
    assert ([q] + r3)[1..] == r3;
    assert r3[1..] == z;
  }

  lemma PlainToken(z: string)
    requires z != [] && IsPlainWord(z)
    ensures Scan(z, [], false) == [z]
  {
    assert z == z + [];
    ScanRun(z, [], [], false);
    assert [] + z == z;
  }

  /** A tab does not separate tokens. */
  lemma TabDoesNotSeparate()
    ensures Tokenize("a\tb") == ["a\tb"]
  {
    assert "a\tb" == "a\tb" + [];
    ScanRun("a\tb", [], [], false);
    assert [] + "a\tb" == "a\tb";
  }

  /** Joining non-empty plain words and tokenizing the result gives the words back. */
  lemma {:induction false} JoinRoundTrip(ws: seq<string>)
    requires forall i :: 0 <= i < |ws| ==> ws[i] != [] && IsPlainWord(ws[i])
    ensures Tokenize(JoinWords(ws)) == ws
    decreases |ws|
  {
    if |ws| == 1 {
      ScanRun(ws[0], [], [], false);
      assert ws[0] + [] == ws[0] && [] + ws[0] == ws[0];
    } else if |ws| > 1 {
      var rest := JoinWords(ws[1..]);
      assert ws[0] + " " + rest == ws[0] + ([' '] + rest);
      ScanRun(ws[0], [' '] + rest, [], false);
      assert ([' '] + rest)[0] == ' ' && ([' '] + rest)[1..] == rest;
      assert [] + ws[0] == ws[0];
      assert Scan([' '] + rest, ws[0], false) == [ws[0]] + Scan(rest, [], false);
      JoinRoundTrip(ws[1..]);
      assert [ws[0]] + ws[1..] == ws;
    }
  }
}
