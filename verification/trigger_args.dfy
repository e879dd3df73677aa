/**
  The argument splitter of the chat command editor (`seperateTriggerFromArgs`): it turns the
  words after the sub-command into a trigger and the remaining text. A trigger is either the
  bare word `args[1]` or a phrase in double quotes that may span several words.

  The quoted phrase is found by the regular expression
  `(?<=(?:\s|^)")(?:[^"]|(?:\\"))*(?=(?:(?:"(?<!\\"))(?:\s|$)))`. Its meaning is stated here
  without a regex engine, as `MatchesAt`:
  - the match starts right after a `"` that stands at the start of the string or after whitespace;
  - every `"` inside the match is preceded, inside the match, by a backslash
    (the body `([^"]|\\")*`);
  - the match ends right before a `"` that is not preceded by a backslash and is followed by
    whitespace or the end of the string.
  For a given start there is at most one such end (the first quote not preceded by a backslash),
  so backtracking order does not matter and `exec` returns the match with the leftmost start.
*/
module TriggerArgs {
  import opened Text

  /** The body of a quoted trigger may start at `p`: `s[p-1]` is a quote at the start of the
      string or after whitespace. */
  predicate OpensAt(s: string, p: nat) {
    1 <= p <= |s| && s[p - 1] == '"' && (p == 1 || IsWhitespace(s[p - 2]))
  }

  /** Every quote in `s[p..q]` is escaped by a backslash that is itself inside `s[p..q]`. */
  predicate EscapedBody(s: string, p: nat, q: nat)
    requires p <= q <= |s|
  {
    forall i :: p <= i < q && s[i] == '"' ==> p < i && s[i - 1] == '\\'
  }

  /** A quote at `q` that is not preceded by a backslash. */
  predicate UnescapedQuote(s: string, q: nat) {
    1 <= q < |s| && s[q] == '"' && s[q - 1] != '\\'
  }

  /** The quoted trigger may end at `q`: an unescaped quote followed by whitespace or the end. */
  predicate ClosesAt(s: string, q: nat) {
    UnescapedQuote(s, q) && (q + 1 == |s| || IsWhitespace(s[q + 1]))
  }

  /** The regular expression matches `s[p..q]`. */
  predicate MatchesAt(s: string, p: nat, q: nat) {
    p <= q <= |s| && OpensAt(s, p) && EscapedBody(s, p, q) && ClosesAt(s, q)
  }

  /** The first unescaped quote at or after `i`. */
  function UnescapedQuoteFrom(s: string, i: nat): (q: Option<nat>)
    requires 1 <= i
    decreases |s| - i
    ensures q.Some? ==> i <= q.value && UnescapedQuote(s, q.value)
    ensures forall j :: i <= j && (q.None? || j < q.value) ==> !UnescapedQuote(s, j)
  {
    if i >= |s| then None
    else if s[i] == '"' && s[i - 1] != '\\' then Some(i)
    else UnescapedQuoteFrom(s, i + 1)
  }

  /** For a start that opens a quoted trigger, the regex matches exactly up to the first
      unescaped quote, provided that quote closes. */
  lemma {:induction false} MatchesAtIff(s: string, p: nat, q: nat)
    requires OpensAt(s, p)
    ensures MatchesAt(s, p, q) <==> (UnescapedQuoteFrom(s, p) == Some(q) && ClosesAt(s, q))
  {
    var first := UnescapedQuoteFrom(s, p);
    if MatchesAt(s, p, q) {
      forall j | p <= j < q
        ensures !UnescapedQuote(s, j)
      {
        if s[j] == '"' {
          assert s[j - 1] == '\\';
        }
      }
      assert first.Some? && first.value <= q;
    }
    if first == Some(q) && ClosesAt(s, q) {
      forall i | p <= i < q && s[i] == '"'
        ensures p < i && s[i - 1] == '\\'
      {
        assert !UnescapedQuote(s, i);
      }
    }
  }

  /** A match is determined by its start. */
  lemma MatchEndUnique(s: string, p: nat, q1: nat, q2: nat)
    requires MatchesAt(s, p, q1) && MatchesAt(s, p, q2)
    ensures q1 == q2
  {
    MatchesAtIff(s, p, q1);
    MatchesAtIff(s, p, q2);
  }

  /** The leftmost match whose start is at or after `p`. */
  function MatchFrom(s: string, p: nat): (m: Option<(nat, nat)>)
    requires 1 <= p
    decreases |s| + 1 - p
    ensures m.Some? ==> p <= m.value.0 && MatchesAt(s, m.value.0, m.value.1)
    ensures forall p': nat, q': nat :: p <= p' && (m.None? || p' < m.value.0) ==> !MatchesAt(s, p', q')
  {
    if p > |s| then None
    else if OpensAt(s, p) && UnescapedQuoteFrom(s, p).Some? && ClosesAt(s, UnescapedQuoteFrom(s, p).value) then
      MatchesAtIff(s, p, UnescapedQuoteFrom(s, p).value);
      Some((p, UnescapedQuoteFrom(s, p).value))
    else
      var m := MatchFrom(s, p + 1);
      assert forall q': nat :: !MatchesAt(s, p, q') by {
        forall q': nat ensures !MatchesAt(s, p, q') {
          if OpensAt(s, p) {
            MatchesAtIff(s, p, q');
          }
        }
      }
      m
  }

  /** `quotedTriggerRegex.exec(s)`: the span `(start, end)` of the leftmost match, if any. */
  function QuotedTriggerSpan(s: string): (m: Option<(nat, nat)>)
    ensures m.Some? ==> MatchesAt(s, m.value.0, m.value.1)
    ensures forall p: nat, q: nat :: (m.None? || p < m.value.0) ==> !MatchesAt(s, p, q)
  {
    MatchFrom(s, 1)
  }

  /** What the splitter returns. */
  datatype TriggerAndData = TriggerAndData(trigger: string, remainingData: string)

  predicate StartsWithQuote(w: string) {
    |w| > 0 && w[0] == '"'
  }

  /** `seperateTriggerFromArgs(args)`. `args[0]` is the sub-command word and is not read; the
      caller has already checked that there are at least two words. */
  function SeperateTriggerFromArgs(args: seq<string>): (r: TriggerAndData)
    requires |args| >= 2
    ensures !StartsWithQuote(args[1]) ==> r.trigger == args[1]
    ensures r.trigger == args[1] || (StartsWithQuote(args[1]) && IsTrimmed(r.trigger))
    ensures IsTrimmed(r.remainingData)
  {
    if StartsWithQuote(args[1]) then
      var combined := Join(args[1..]);
      match QuotedTriggerSpan(combined)
      case None =>
        TriggerAndData(args[1], Trim(Join(args[2..])))
      case Some((p, q)) =>
        var trigger := Trim(combined[p..q]);
        TriggerAndData(trigger, Trim(RemoveFirst(combined, "\"" + trigger + "\"")))
    else
      TriggerAndData(args[1], Trim(Join(args[2..])))
  }

  /** A bare trigger, or a leading quote that opens no matching span: the trigger is the word
      `args[1]` itself and the remaining data is the later words joined and trimmed. */
  lemma BareTrigger(args: seq<string>)
    requires |args| >= 2
    requires !StartsWithQuote(args[1]) || forall p: nat, q: nat :: !MatchesAt(Join(args[1..]), p, q)
    ensures SeperateTriggerFromArgs(args) == TriggerAndData(args[1], Trim(Join(args[2..])))
  {
    if StartsWithQuote(args[1]) {
      assert forall p: nat, q: nat :: !MatchesAt(Join(args[1..]), p, q);
      var m := QuotedTriggerSpan(Join(args[1..]));
      assert m.None?;
    }
  }

  /** A matched quoted span: the trigger is the span trimmed, and the remaining data is the
      joined words with the first occurrence of the quoted trigger cut out, trimmed. */
  lemma QuotedTrigger(args: seq<string>, p: nat, q: nat)
    requires |args| >= 2 && StartsWithQuote(args[1])
    requires MatchesAt(Join(args[1..]), p, q)
    requires forall p': nat, q': nat :: p' < p ==> !MatchesAt(Join(args[1..]), p', q')
    ensures var trigger := Trim(Join(args[1..])[p..q]);
      SeperateTriggerFromArgs(args)
        == TriggerAndData(trigger, Trim(RemoveFirst(Join(args[1..]), "\"" + trigger + "\"")))
  {
    var s := Join(args[1..]);
    var m := QuotedTriggerSpan(s);
    assert m.Some? && m.value.0 == p;
    MatchEndUnique(s, p, q, m.value.1);
  }

  /** A phrase without quotes or surrounding whitespace, written in quotes at the front and
      followed by whitespace or nothing, is split back into the phrase and the rest. */
  lemma QuotedPhraseRoundTrip(args: seq<string>, phrase: string, rest: string)
    requires |args| >= 2
    requires Join(args[1..]) == "\"" + phrase + "\"" + rest
    requires '"' !in phrase && IsTrimmed(phrase)
    requires phrase == [] || phrase[|phrase| - 1] != '\\'
    requires rest == [] || IsWhitespace(rest[0])
    ensures SeperateTriggerFromArgs(args) == TriggerAndData(phrase, Trim(rest))
  {
    var s := Join(args[1..]);
    FirstWordOpens(args);
    QuotedPhraseSpan(s, phrase, rest);
    MatchedSpanParts(args, 1, |phrase| + 1);
  }

  /** The joined words start with the first word's first character. */
  lemma FirstWordOpens(args: seq<string>)
    requires |args| >= 2
    requires Join(args[1..]) != [] && Join(args[1..])[0] == '"'
    ensures StartsWithQuote(args[1])
  {
    var s := Join(args[1..]);
    assert args[1..][0] == args[1];
    if |args| > 2 {
      assert s == args[1] + " " + Join(args[2..]);
      assert (args[1] + " " + Join(args[2..]))[0] == if args[1] == [] then ' ' else args[1][0];
    }
  }

  /** In a string that starts with a quoted phrase followed by whitespace or nothing, the
      regex matches that phrase and `indexOf` finds it at the front. */
  lemma QuotedPhraseSpan(s: string, phrase: string, rest: string)
    requires s == "\"" + phrase + "\"" + rest
    requires '"' !in phrase
    requires phrase == [] || phrase[|phrase| - 1] != '\\'
    requires rest == [] || IsWhitespace(rest[0])
    ensures QuotedTriggerSpan(s) == Some((1, |phrase| + 1)) && s[1..|phrase| + 1] == phrase
    ensures RemoveFirst(s, "\"" + s[1..|phrase| + 1] + "\"") == rest
  {
    var q := |phrase| + 1;
    assert s[1..q] == phrase;
    assert OpensAt(s, 1);
    assert UnescapedQuote(s, q);
    forall j | 1 <= j < q ensures !UnescapedQuote(s, j) {
      assert s[j] == phrase[j - 1];
    }
    assert UnescapedQuoteFrom(s, 1) == Some(q);
    assert ClosesAt(s, q);
    var pat := "\"" + phrase + "\"";
    assert OccursAt(s, pat, 0);
    CutAt(s, pat, 0);
    assert s[|pat|..] == rest;
  }

  /** The same with the usual spacing: a quoted phrase, one space and the message. */
  lemma QuotedPhraseThenText(args: seq<string>, phrase: string, text: string)
    requires |args| >= 2
    requires Join(args[1..]) == "\"" + phrase + "\" " + text
    requires '"' !in phrase && IsTrimmed(phrase)
    requires phrase == [] || phrase[|phrase| - 1] != '\\'
    requires IsTrimmed(text)
    ensures SeperateTriggerFromArgs(args) == TriggerAndData(phrase, text)
  {
    var rest := " " + text;
    assert "\"" + phrase + "\" " + text == "\"" + phrase + "\"" + rest;
    QuotedPhraseRoundTrip(args, phrase, rest);
    assert rest == [' '] + text;
    TrimSkipsLeadingWhitespace(' ', text);
    TrimOfTrimmed(text);
  }

  /** `!command add "hello there" Hi!`: the words `"hello` and `there"` form the trigger. */
  lemma QuotedExample(args: seq<string>)
    requires args == ["add", "\"hello", "there\"", "Hi!"]
    ensures SeperateTriggerFromArgs(args) == TriggerAndData("hello there", "Hi!")
  {
    assert Join(["Hi!"]) == "Hi!";
    assert ["there\"", "Hi!"][1..] == ["Hi!"];
    assert Join(["there\"", "Hi!"]) == "there\"" + " " + "Hi!";
    assert args[1..] == ["\"hello", "there\"", "Hi!"];
    assert args[1..][1..] == ["there\"", "Hi!"];
    assert Join(args[1..]) == "\"" + "hello there" + "\" " + "Hi!";
    QuotedPhraseThenText(args, "hello there", "Hi!");
  }

  /** A matched span without whitespace at its ends is the trigger as it stands, and the
      remaining data is the joined words with the first textual occurrence of the quoted
      trigger cut out, trimmed; that occurrence need not be the span the regex matched. */
  lemma MatchedSpanParts(args: seq<string>, p: nat, q: nat)
    requires |args| >= 2 && StartsWithQuote(args[1])
    requires QuotedTriggerSpan(Join(args[1..])) == Some((p, q))
    requires IsTrimmed(Join(args[1..])[p..q])
    ensures var s := Join(args[1..]);
      && SeperateTriggerFromArgs(args).trigger == s[p..q]
      && SeperateTriggerFromArgs(args).remainingData == Trim(RemoveFirst(s, "\"" + s[p..q] + "\""))
  {
    TrimOfTrimmed(Join(args[1..])[p..q]);
  }

  /** The same, when what is left after the cut has no whitespace at its ends. */
  lemma MatchedSpanThenText(args: seq<string>, s: string, p: nat, q: nat, text: string)
    requires |args| >= 2 && StartsWithQuote(args[1]) && s == Join(args[1..])
    requires QuotedTriggerSpan(s) == Some((p, q)) && IsTrimmed(s[p..q])
    requires RemoveFirst(s, "\"" + s[p..q] + "\"") == text && IsTrimmed(text)
    ensures SeperateTriggerFromArgs(args) == TriggerAndData(s[p..q], text)
  {
    MatchedSpanParts(args, p, q);
    TrimOfTrimmed(text);
  }

  /** Cutting out the first occurrence found by `indexOf`. */
  lemma CutAt(s: string, pat: string, k: nat)
    requires IndexOfFrom(s, pat, 0) == Some(k)
    ensures RemoveFirst(s, pat) == s[..k] + s[k + |pat|..]
  {
  }

  /** In `"x"y "x"` the first quote cannot open a trigger (its closing quote is followed by
      `y`), so the regex matches the second `"x"`, while `indexOf` finds the first. */
  lemma RepeatedTriggerSpan(s: string)
    requires s == "\"x\"y \"x\""
    ensures QuotedTriggerSpan(s) == Some((6, 7)) && s[6..7] == "x"
    ensures RemoveFirst(s, "\"" + s[6..7] + "\"") == "y \"x\""
  {
    assert UnescapedQuoteFrom(s, 1) == Some(2);
    forall p: nat, q: nat | p < 6
      ensures !MatchesAt(s, p, q)
    {
      if p == 1 {
        MatchesAtIff(s, 1, q);
      }
    }
    assert UnescapedQuoteFrom(s, 6) == Some(7);
    MatchesAtIff(s, 6, 7);
    var m := QuotedTriggerSpan(s);
    assert m.Some? && m.value.0 == 6;
    MatchEndUnique(s, 6, 7, m.value.1);
    var pat := "\"" + s[6..7] + "\"";
    assert OccursAt(s, pat, 0);
    CutAt(s, pat, 0);
  }

  /** `!command add "x"y "x"`: the trigger is the second `"x"`, but the text cut from the
      remaining data is the first one. */
  lemma RepeatedTriggerExample(args: seq<string>)
    requires args == ["add", "\"x\"y", "\"x\""]
    ensures SeperateTriggerFromArgs(args) == TriggerAndData("x", "y \"x\"")
  {
    var s := Join(args[1..]);
    RepeatedTriggerWords(args);
    RepeatedTriggerSpan(s);
    RepeatedTriggerTexts(s[6..7], "y \"x\"");
    MatchedSpanThenText(args, s, 6, 7, "y \"x\"");
  }

  lemma RepeatedTriggerTexts(trigger: string, text: string)
    requires trigger == "x" && text == "y \"x\""
    ensures IsTrimmed(trigger) && IsTrimmed(text)
  {
    assert text[0] == 'y' && text[|text| - 1] == '"';
  }

  lemma RepeatedTriggerWords(args: seq<string>)
    requires args == ["add", "\"x\"y", "\"x\""]
    ensures StartsWithQuote(args[1]) && Join(args[1..]) == "\"x\"y \"x\""
  {
    JoinTwo(args[1..]);
  }

  /** `!command add !greet Hello!`. */
  lemma BareExample(args: seq<string>)
    requires args == ["add", "!greet", "Hello!"]
    ensures SeperateTriggerFromArgs(args) == TriggerAndData("!greet", "Hello!")
  {
    assert args[2..] == ["Hello!"];
    TrimOfTrimmed("Hello!");
  }
}
