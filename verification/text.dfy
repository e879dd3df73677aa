/**
  String operations of the JavaScript runtime that the chat command editor relies on:
  `String.prototype.trim`, `Array.prototype.join(" ")`, `String.prototype.split(" ")`,
  `String.prototype.toLowerCase` (on ASCII letters) and the first-occurrence search behind
  `String.prototype.replace` with a string pattern.
*/
module Text {

  datatype Option<+T> = None | Some(value: T)

  /** The characters that JavaScript's `\s` matches and that `trim` removes
      (WhiteSpace and LineTerminator of ECMAScript). */
  predicate IsWhitespace(c: char) {
    c == ' ' || c == '\t' || c == '\n' || c == '\r' || c == '\U{B}' || c == '\U{C}'
    || c == '\U{A0}' || c == '\U{1680}' || ('\U{2000}' <= c <= '\U{200A}')
    || c == '\U{2028}' || c == '\U{2029}' || c == '\U{202F}' || c == '\U{205F}'
    || c == '\U{3000}' || c == '\U{FEFF}'
  }

  /** A string that `trim` leaves as it is. */
  predicate IsTrimmed(s: string) {
    s == [] || (!IsWhitespace(s[0]) && !IsWhitespace(s[|s| - 1]))
  }

  /** Drops the leading whitespace: the result is a suffix of `s` and only whitespace was dropped. */
  function TrimStart(s: string): (r: string)
    ensures |r| <= |s| && r == s[|s| - |r|..]
    ensures r == [] || !IsWhitespace(r[0])
    ensures forall i :: 0 <= i < |s| - |r| ==> IsWhitespace(s[i])
  {
    if s != [] && IsWhitespace(s[0]) then TrimStart(s[1..]) else s
  }

  /** Drops the trailing whitespace: the result is a prefix of `s` and only whitespace was dropped. */
  function TrimEnd(s: string): (r: string)
    ensures |r| <= |s| && r == s[..|r|]
    ensures r == [] || !IsWhitespace(r[|r| - 1])
    ensures forall i :: |r| <= i < |s| ==> IsWhitespace(s[i])
  {
    if s != [] && IsWhitespace(s[|s| - 1]) then TrimEnd(s[..|s| - 1]) else s
  }

  /** `r` stands in `s` at index `i` with nothing but whitespace around it. */
  predicate SurroundedByWhitespace(s: string, r: string, i: nat) {
    OccursAt(s, r, i)
    && (forall j :: 0 <= j < i ==> IsWhitespace(s[j]))
    && (forall j :: i + |r| <= j < |s| ==> IsWhitespace(s[j]))
  }

  /** `s.trim()`: the slice of `s` left once whitespace is cut from both ends; it neither
      starts nor ends with whitespace. */
  function Trim(s: string): (r: string)
    ensures IsTrimmed(r)
    ensures |r| <= |s|
    ensures SurroundedByWhitespace(s, r, LeadingWhitespace(s))
  {
    var t := TrimStart(s);
    WhitespaceCutFromBothEnds(s, t, TrimEnd(t));
    TrimEnd(t)
  }

  /** Cutting whitespace from the start of `s` (giving `t`) and then from the end of `t`
      (giving `r`) leaves `r` framed by whitespace in `s`. */
  lemma WhitespaceCutFromBothEnds(s: string, t: string, r: string)
    requires |t| <= |s| && t == s[|s| - |t|..]
    requires forall j :: 0 <= j < |s| - |t| ==> IsWhitespace(s[j])
    requires t == [] || !IsWhitespace(t[0])
    requires |r| <= |t| && r == t[..|r|]
    requires forall j :: |r| <= j < |t| ==> IsWhitespace(t[j])
    requires r == [] || !IsWhitespace(r[|r| - 1])
    ensures SurroundedByWhitespace(s, r, |s| - |t|)
    ensures IsTrimmed(r) && |r| <= |s|
  {
    var i := |s| - |t|;
    if r != [] {
      assert r[0] == t[0];
    }
    assert s[i..i + |r|] == t[..|r|];
    forall j | i + |r| <= j < |s| ensures IsWhitespace(s[j]) {
      assert s[j] == t[j - i];
    }
  }

  /** The number of whitespace characters `trim` cuts from the start of `s`. */
  function LeadingWhitespace(s: string): nat {
    |s| - |TrimStart(s)|
  }

  /** A string without whitespace at either end is its own trim. */
  lemma {:induction false} TrimOfTrimmed(s: string)
    requires IsTrimmed(s)
    ensures Trim(s) == s
  {
    assert TrimStart(s) == s;
    assert TrimEnd(s) == s;
  }

  /** `trim` is idempotent. */
  lemma TrimIdempotent(s: string)
    ensures Trim(Trim(s)) == Trim(s)
  {
    TrimOfTrimmed(Trim(s));
  }

  /** Leading whitespace does not change the trim. */
  lemma {:induction false} TrimSkipsLeadingWhitespace(c: char, s: string)
    requires IsWhitespace(c)
    ensures Trim([c] + s) == Trim(s)
  {
    assert ([c] + s)[1..] == s;
  }

  /** The trim of `s` is the only string without whitespace at its ends that stands in `s`
      with nothing but whitespace around it. */
  lemma TrimUnique(s: string, r: string, i: nat)
    requires IsTrimmed(r) && SurroundedByWhitespace(s, r, i)
    ensures Trim(s) == r
  {
    CoresAgree(s, r, i, Trim(s), LeadingWhitespace(s));
  }

  /** Two cores without whitespace at their ends, each framed by whitespace in `s`, agree. */
  lemma CoresAgree(s: string, r: string, i: nat, t: string, j: nat)
    requires IsTrimmed(r) && SurroundedByWhitespace(s, r, i)
    requires IsTrimmed(t) && SurroundedByWhitespace(s, t, j)
    ensures r == t
  {
    EmptyCoreIffBlank(s, r, i);
    EmptyCoreIffBlank(s, t, j);
    if r != [] {
      assert s[i] == r[0] && s[j] == t[0];
      InsideCore(s, r, i, j);
      InsideCore(s, t, j, i);
      assert s[i + |r| - 1] == r[|r| - 1] && s[i + |t| - 1] == t[|t| - 1];
      InsideCore(s, r, i, i + |t| - 1);
      InsideCore(s, t, i, i + |r| - 1);
    }
  }

  /** A non-whitespace character of `s` lies inside the core that whitespace surrounds. */
  lemma InsideCore(s: string, r: string, i: nat, k: nat)
    requires SurroundedByWhitespace(s, r, i)
    requires k < |s| && !IsWhitespace(s[k])
    ensures i <= k < i + |r|
  {
  }

  /** A trimmed core framed by whitespace is empty exactly when the whole string is blank. */
  lemma EmptyCoreIffBlank(s: string, r: string, i: nat)
    requires IsTrimmed(r) && SurroundedByWhitespace(s, r, i)
    ensures r == [] <==> forall k :: 0 <= k < |s| ==> IsWhitespace(s[k])
  {
    if r != [] {
      assert s[i] == r[0];
    }
  }

  /** Trailing whitespace does not change the trim. */
  lemma TrimSkipsTrailingWhitespace(s: string, c: char)
    requires IsWhitespace(c)
    ensures Trim(s + [c]) == Trim(s)
  {
    var t := Trim(s);
    var i := LeadingWhitespace(s);
    var s' := s + [c];
    assert OccursAt(s', t, i) by {
      assert s'[i..i + |t|] == s[i..i + |t|];
    }
    assert forall j :: 0 <= j < i ==> IsWhitespace(s'[j]) by {
      forall j | 0 <= j < i ensures IsWhitespace(s'[j]) {
        assert s'[j] == s[j];
      }
    }
    assert forall j :: i + |t| <= j < |s'| ==> IsWhitespace(s'[j]) by {
      forall j | i + |t| <= j < |s'| ensures IsWhitespace(s'[j]) {
        if j < |s| {
          assert s'[j] == s[j];
        }
      }
    }
    TrimUnique(s', t, i);
  }

  /** `words.join(" ")`. */
  function Join(words: seq<string>): (r: string)
    ensures words != [] ==> |words[0]| <= |r| && r[..|words[0]|] == words[0]
    ensures |words| > 1 ==> r == words[0] + " " + Join(words[1..])
  {
    if words == [] then ""
    else if |words| == 1 then words[0]
    else words[0] + " " + Join(words[1..])
  }

  /** Two words joined. */
  lemma JoinTwo(words: seq<string>)
    requires |words| == 2
    ensures Join(words) == words[0] + " " + words[1]
  {
    assert words[1..] == [words[1]];
  }

  /** `s.split(" ")`: the pieces between single spaces; never empty (`"".split(" ")` is `[""]`). */
  function Split(s: string): (r: seq<string>)
    ensures |r| >= 1
    ensures forall k :: 0 <= k < |r| ==> ' ' !in r[k]
    ensures |r| == 1 <==> ' ' !in s
  {
    if s == [] then [""]
    else if s[0] == ' ' then [""] + Split(s[1..])
    else
      var rest := Split(s[1..]);
      [[s[0]] + rest[0]] + rest[1..]
  }

  /** Joining the pieces of a split with single spaces gives the string back. */
  lemma {:induction false} JoinSplit(s: string)
    ensures Join(Split(s)) == s
  {
    if s == [] {
    } else if s[0] == ' ' {
      JoinSplit(s[1..]);
      assert Split(s) == [""] + Split(s[1..]);
    } else {
      JoinSplit(s[1..]);
      var rest := Split(s[1..]);
      if |rest| > 1 {
        assert Join(rest) == rest[0] + " " + Join(rest[1..]);
        assert Split(s)[1..] == rest[1..];
      }
    }
  }

  /** Splitting words that hold no space after joining them gives the words back. */
  lemma {:induction false} SplitJoin(words: seq<string>)
    requires words != []
    requires forall k :: 0 <= k < |words| ==> ' ' !in words[k]
    ensures Split(Join(words)) == words
  {
    if |words| == 1 {
      SplitWord(words[0], "");
      assert words[0] + "" == words[0];
    } else {
      SplitJoin(words[1..]);
      SplitWord(words[0], " " + Join(words[1..]));
      assert Join(words) == words[0] + (" " + Join(words[1..]));
      assert (" " + Join(words[1..]))[1..] == Join(words[1..]);
    }
  }

  /** A space-free word in front of a string becomes the front of the first piece. */
  lemma {:induction false} SplitWord(w: string, tail: string)
    requires ' ' !in w
    requires tail == [] || tail[0] == ' '
    ensures tail == [] ==> Split(w + tail) == [w]
    ensures tail != [] ==> Split(w + tail) == [w] + Split(tail[1..])
    decreases |w|
  {
    if w == [] {
      assert w + tail == tail;
    } else {
      SplitWord(w[1..], tail);
      assert (w + tail)[1..] == w[1..] + tail;
      assert [w[0]] + w[1..] == w;
    }
  }

  /** `s.toLowerCase()` restricted to ASCII: `A`..`Z` become `a`..`z`, everything else stays. */
  function LowerChar(c: char): char {
    if 'A' <= c <= 'Z' then (c as int - 'A' as int + 'a' as int) as char else c
  }

  function ToLower(s: string): (r: string)
    ensures |r| == |s|
    ensures forall i :: 0 <= i < |s| ==> r[i] == LowerChar(s[i])
  {
    seq(|s|, i requires 0 <= i < |s| => LowerChar(s[i]))
  }

  /** Lower-casing keeps whitespace and non-whitespace apart, so it commutes with `trim`. */
  lemma LowerCharWhitespace(c: char)
    ensures IsWhitespace(LowerChar(c)) == IsWhitespace(c)
  {
  }

  lemma {:induction false} LowerTrimStart(s: string)
    ensures TrimStart(ToLower(s)) == ToLower(TrimStart(s))
    decreases |s|
  {
    if s != [] {
      var l := ToLower(s);
      assert l[1..] == ToLower(s[1..]);
      LowerCharWhitespace(s[0]);
      if IsWhitespace(s[0]) {
        LowerTrimStart(s[1..]);
      }
    }
  }

  lemma {:induction false} LowerTrimEnd(s: string)
    ensures TrimEnd(ToLower(s)) == ToLower(TrimEnd(s))
    decreases |s|
  {
    if s != [] {
      var l := ToLower(s);
      assert l[..|s| - 1] == ToLower(s[..|s| - 1]);
      LowerCharWhitespace(s[|s| - 1]);
      if IsWhitespace(s[|s| - 1]) {
        LowerTrimEnd(s[..|s| - 1]);
      }
    }
  }

  lemma LowerTrim(s: string)
    ensures Trim(ToLower(s)) == ToLower(Trim(s))
  {
    LowerTrimStart(s);
    LowerTrimEnd(TrimStart(s));
  }

  /** Lower-casing is idempotent. */
  lemma ToLowerIdempotent(s: string)
    ensures ToLower(ToLower(s)) == ToLower(s)
  {
  }

  /** `pat` occurs in `s` at index `k`. */
  predicate OccursAt(s: string, pat: string, k: nat) {
    k + |pat| <= |s| && s[k..k + |pat|] == pat
  }

  /** `s.indexOf(pat, from)`: the first occurrence at or after `from`, if any. */
  function IndexOfFrom(s: string, pat: string, from: nat): (k: Option<nat>)
    decreases |s| - from
    ensures k.Some? ==> from <= k.value && OccursAt(s, pat, k.value)
    ensures forall j :: from <= j && (k.None? || j < k.value) ==> !OccursAt(s, pat, j)
  {
    if from + |pat| > |s| then None
    else if s[from..from + |pat|] == pat then Some(from)
    else IndexOfFrom(s, pat, from + 1)
  }

  /** `s.replace(pat, "")` for a string pattern: the first occurrence of `pat` is cut out. */
  function RemoveFirst(s: string, pat: string): (r: string)
    ensures IndexOfFrom(s, pat, 0).None? ==> r == s
    ensures IndexOfFrom(s, pat, 0).Some? ==>
      var k := IndexOfFrom(s, pat, 0).value;
      |r| == |s| - |pat| && r[..k] + pat + r[k..] == s
  {
    match IndexOfFrom(s, pat, 0)
    case None => s
    case Some(k) => s[..k] + s[k + |pat|..]
  }
}
