/** String helpers that mirror the JavaScript string operations the lookup
    page relies on: `trim`, `split` on a single character, the quote-stripping
    `replace(/^"|"$/g, '')` and `includes`. Strings are sequences of code points. */
module Text {

  /** The code points `String.prototype.trim` removes: ECMAScript WhiteSpace
      (tab, vertical tab, form feed, space, no-break space, the byte order
      mark and the Space_Separator category) and LineTerminator (LF, CR, the
      line and paragraph separators). */
  predicate IsWhitespace(c: char) {
    || c == '\t' || c == '\n' || c == '\U{000B}' || c == '\U{000C}' || c == '\r'
    || c == ' ' || c == '\U{00A0}' || c == '\U{1680}'
    || ('\U{2000}' <= c <= '\U{200A}')
    || c == '\U{2028}' || c == '\U{2029}' || c == '\U{202F}' || c == '\U{205F}'
    || c == '\U{3000}' || c == '\U{FEFF}'
  }

  predicate AllWhitespace(s: string) {
    forall i :: 0 <= i < |s| ==> IsWhitespace(s[i])
  }

  /** Drops the leading whitespace. */
  function TrimStart(s: string): string {
    if s != [] && IsWhitespace(s[0]) then TrimStart(s[1..]) else s
  }

  /** What `TrimStart` leaves is a suffix of `s` that does not start with
      whitespace, and everything it dropped is whitespace. */
  lemma {:induction false} TrimStartSpec(s: string)
    ensures var r := TrimStart(s);
      && |r| <= |s| && r == s[|s| - |r|..]
      && AllWhitespace(s[..|s| - |r|])
      && (r == [] || !IsWhitespace(r[0]))
  {
    if s != [] && IsWhitespace(s[0]) {
      TrimStartSpec(s[1..]);
      var r := TrimStart(s);
      assert s[..|s| - |r|] == [s[0]] + s[1..][..|s| - 1 - |r|];
    }
  }

  /** Drops the trailing whitespace. */
  function TrimEnd(s: string): string {
    if s != [] && IsWhitespace(s[|s| - 1]) then TrimEnd(s[..|s| - 1]) else s
  }

  /** What `TrimEnd` leaves is a prefix of `s` that does not end with
      whitespace, and everything it dropped is whitespace. */
  lemma {:induction false} TrimEndSpec(s: string)
    ensures var r := TrimEnd(s);
      && |r| <= |s| && r == s[..|r|]
      && AllWhitespace(s[|r|..])
      && (r == [] || !IsWhitespace(r[|r| - 1]))
  {
    if s != [] && IsWhitespace(s[|s| - 1]) {
      var t := s[..|s| - 1];
      TrimEndSpec(t);
      var r := TrimEnd(s);
      assert s[|r|..] == t[|r|..] + [s[|s| - 1]];
      assert t[..|r|] == s[..|r|];
    }
  }

  /** `r` is the slice of `s` starting at `i`, with only whitespace before
      and after it. */
  predicate SliceInWhitespace(s: string, r: string, i: int) {
    0 <= i <= |s| - |r| && r == s[i..i + |r|]
    && AllWhitespace(s[..i]) && AllWhitespace(s[i + |r|..])
  }

  /** `s.trim()`: never longer than `s`, and neither starts nor ends with
      whitespace. */
  function Trim(s: string): (r: string)
    ensures |r| <= |s|
    ensures r == [] || (!IsWhitespace(r[0]) && !IsWhitespace(r[|r| - 1]))
  {
    TrimStartSpec(s);
    TrimEndSpec(TrimStart(s));
    TrimEnd(TrimStart(s))
  }

  /** The trimmed string is a slice of `s` with only whitespace around it and
      no whitespace at either of its ends. */
  lemma TrimSpec(s: string)
    ensures exists i :: SliceInWhitespace(s, Trim(s), i)
    ensures var r := Trim(s); r == [] || (!IsWhitespace(r[0]) && !IsWhitespace(r[|r| - 1]))
  {
    var t := TrimStart(s);
    var r := TrimEnd(t);
    TrimStartSpec(s);
    TrimEndSpec(t);
    assert r == Trim(s);
    var i := |s| - |t|;
    assert t == s[i..];
    assert s[i + |r|..] == t[|r|..];
    assert SliceInWhitespace(s, r, i);
  }

  /** `s.replace(/^"|"$/g, '')`: removes at most one leading and at most one
      trailing double quote, each only when present. On the one-character
      string `"` the single quote is consumed by the leading alternative, so
      the result is empty. */
  function StripQuotes(s: string): (r: string)
    ensures |s| - 2 <= |r| <= |s|
    ensures s != [] && s[0] == '"' ==> r == (if |s| >= 2 && s[|s| - 1] == '"' then s[1..|s| - 1] else s[1..])
    ensures s != [] && s[0] != '"' && s[|s| - 1] == '"' ==> r == s[..|s| - 1]
    ensures (s == [] || (s[0] != '"' && s[|s| - 1] != '"')) ==> r == s
  {
    var t := if s != [] && s[0] == '"' then s[1..] else s;
    if t != [] && t[|t| - 1] == '"' then t[..|t| - 1] else t
  }

  /** Enclosing any text in a pair of quotes and stripping them gives the text
      back, whatever quotes the text itself holds. */
  lemma StripQuotesOfQuoted(t: string)
    ensures StripQuotes(['"'] + t + ['"']) == t
  {
    var s := ['"'] + t + ['"'];
    assert s[1..] == t + ['"'];
    assert (t + ['"'])[..|t|] == t;
  }

  /** Position of the first `c` in `s`, or `|s|` when there is none. */
  function IndexOf(s: string, c: char): (j: nat)
    ensures j <= |s|
    ensures j < |s| ==> s[j] == c
    ensures forall i :: 0 <= i < j ==> s[i] != c
  {
    if s == [] then 0 else if s[0] == c then 0 else 1 + IndexOf(s[1..], c)
  }

  /** Joins the pieces with `sep` between them: the inverse that `Split` is
      specified against. */
  function Join(pieces: seq<string>, sep: char): string {
    if |pieces| == 0 then ""
    else if |pieces| == 1 then pieces[0]
    else pieces[0] + [sep] + Join(pieces[1..], sep)
  }

  /** `s.split(sep)` for a one-character separator: cut `s` at every
      occurrence of `sep`. */
  function Split(s: string, sep: char): (r: seq<string>)
    ensures |r| >= 1
    decreases |s|
  {
    var j := IndexOf(s, sep);
    if j == |s| then [s]
    else [s[..j]] + Split(s[j + 1..], sep)
  }

  /** No piece of `Split(s, sep)` holds the separator, and joining the pieces
      with it gives `s` back. */
  lemma {:induction false} SplitSpec(s: string, sep: char)
    ensures forall k :: 0 <= k < |Split(s, sep)| ==> sep !in Split(s, sep)[k]
    ensures Join(Split(s, sep), sep) == s
    decreases |s|
  {
    var j := IndexOf(s, sep);
    if j == |s| {
      assert sep !in s;
    } else {
      var rest := Split(s[j + 1..], sep);
      SplitSpec(s[j + 1..], sep);
      var r := Split(s, sep);
      assert r == [s[..j]] + rest;
      assert r[1..] == rest;
      assert s == s[..j] + [sep] + s[j + 1..];
      assert forall k :: 1 <= k < |r| ==> r[k] == rest[k - 1];
    }
  }

  /** The pieces are the only sequence with the properties `Split` promises:
      any separator-free pieces whose join is `s` are `Split(s, sep)`. */
  lemma {:induction false} SplitUnique(s: string, sep: char, pieces: seq<string>)
    requires |pieces| >= 1
    requires forall k :: 0 <= k < |pieces| ==> sep !in pieces[k]
    requires Join(pieces, sep) == s
    ensures pieces == Split(s, sep)
    decreases |pieces|
  {
    var p := pieces[0];
    var j := IndexOf(s, sep);
    if |pieces| == 1 {
      assert s == p;
      assert j == |s|;
    } else {
      var tail := pieces[1..];
      assert s == p + [sep] + Join(tail, sep);
      assert s[|p|] == sep;
      assert forall i :: 0 <= i < |p| ==> s[i] == p[i];
      assert j == |p|;
      assert s[..j] == p;
      assert s[j + 1..] == Join(tail, sep);
      assert forall k :: 0 <= k < |tail| ==> sep !in tail[k] by {
        forall k | 0 <= k < |tail| ensures sep !in tail[k] { assert tail[k] == pieces[k + 1]; }
      }
      SplitUnique(s[j + 1..], sep, tail);
    }
  }

  /** `s.includes(t)` (with `<=` the prefix order on sequences). */
  predicate Contains(s: string, t: string)
    ensures t == [] ==> Contains(s, t)
    ensures Contains(s, t) ==> |t| <= |s|
    decreases |s|
  {
    t <= s || (s != [] && Contains(s[1..], t))
  }

  /** `t` occurs in `s` starting at position `i`. */
  predicate OccursAt(s: string, t: string, i: int) {
    0 <= i <= |s| - |t| && s[i..i + |t|] == t
  }

  /** A position where `Contains` finds `t`. */
  lemma {:induction false} ContainsFindsOccurrence(s: string, t: string) returns (i: nat)
    requires Contains(s, t)
    ensures OccursAt(s, t, i)
    decreases |s|
  {
    if t <= s {
      i := 0;
    } else {
      var k := ContainsFindsOccurrence(s[1..], t);
      assert s[k + 1..k + 1 + |t|] == s[1..][k..k + |t|];
      i := k + 1;
    }
  }

  /** `Contains` finds every occurrence of `t`. */
  lemma {:induction false} OccurrenceIsContained(s: string, t: string, i: nat)
    requires OccursAt(s, t, i)
    ensures Contains(s, t)
    decreases i
  {
    if i == 0 {
      assert t <= s;
    } else {
      assert s[1..][i - 1..i - 1 + |t|] == s[i..i + |t|];
      OccurrenceIsContained(s[1..], t, i - 1);
    }
  }

  /** `Contains` holds exactly when `t` occurs at some position of `s`. */
  lemma ContainsAt(s: string, t: string)
    ensures Contains(s, t) <==> exists i :: OccursAt(s, t, i)
  {
    if Contains(s, t) {
      var i := ContainsFindsOccurrence(s, t);
    }
    if exists i :: OccursAt(s, t, i) {
      var i :| OccursAt(s, t, i);
      OccurrenceIsContained(s, t, i);
    }
  }
}
