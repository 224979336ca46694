/** Accent- and case-insensitive matching key: `normalizeString` lower-cases a
    string, decomposes it (Unicode NFD) and deletes the combining diacritical
    marks U+0300..U+036F. Case mapping is modelled over the ASCII and Latin-1
    upper-case letters, and decomposition over the accented lower-case
    Latin-1 letters: lower-casing runs first, so no upper-case accented
    letter reaches decomposition. Latin-1 is the alphabet of the Portuguese
    names the page searches. */
module Normalization {
  import opened Wrappers
  import opened Seqs

  /** The block of combining diacritical marks the source deletes. */
  predicate IsCombiningMark(c: char) {
    '\U{0300}' <= c <= '\U{036F}'
  }

  /** `toLowerCase` on ASCII and Latin-1 upper-case letters (U+00D7, the
      multiplication sign, is not a letter); every other code point is kept. */
  function LowerChar(c: char): char {
    if 'A' <= c <= 'Z' || ('\U{00C0}' <= c <= '\U{00DE}' && c != '\U{00D7}') then
      (c as int + 32) as char
    else c
  }

  /** Canonical (NFD) decomposition of the precomposed lower-case Latin-1
      letters into a base letter and one combining mark. */
  function Decompose(c: char): string {
    match c
    case 'à' => "a\U{0300}"  case 'á' => "a\U{0301}"  case 'â' => "a\U{0302}"
    case 'ã' => "a\U{0303}"  case 'ä' => "a\U{0308}"  case 'å' => "a\U{030A}"
    case 'ç' => "c\U{0327}"
    case 'è' => "e\U{0300}"  case 'é' => "e\U{0301}"  case 'ê' => "e\U{0302}"
    case 'ë' => "e\U{0308}"
    case 'ì' => "i\U{0300}"  case 'í' => "i\U{0301}"  case 'î' => "i\U{0302}"
    case 'ï' => "i\U{0308}"
    case 'ñ' => "n\U{0303}"
    case 'ò' => "o\U{0300}"  case 'ó' => "o\U{0301}"  case 'ô' => "o\U{0302}"
    case 'õ' => "o\U{0303}"  case 'ö' => "o\U{0308}"
    case 'ù' => "u\U{0300}"  case 'ú' => "u\U{0301}"  case 'û' => "u\U{0302}"
    case 'ü' => "u\U{0308}"
    case 'ý' => "y\U{0301}"  case 'ÿ' => "y\U{0308}"
    case _ => [c]
  }

  /** `s.toLowerCase()`: position by position, the result is the input up to
      case, has no upper-case letter left, and keeps every code point that
      already was lower case. */
  function LowerAll(s: string): (r: string)
    ensures |r| == |s|
    ensures forall i :: 0 <= i < |r| ==> LowerChar(r[i]) == r[i]
    ensures forall i :: 0 <= i < |s| ==> LowerChar(r[i]) == LowerChar(s[i])
    ensures forall i :: 0 <= i < |s| && LowerChar(s[i]) == s[i] ==> r[i] == s[i]
  {
    seq(|s|, i requires 0 <= i < |s| => LowerChar(s[i]))
  }

  /** `s.normalize("NFD")` on the lower-cased text that `normalizeString`
      passes to it: each code point becomes one or two, and the result is
      fully decomposed, so decomposing it again changes nothing. */
  function DecomposeAll(s: string): (r: string)
    ensures |s| <= |r| <= 2 * |s|
    ensures forall i :: 0 <= i < |r| ==> Decompose(r[i]) == [r[i]]
  {
    if s == [] then []
    else
      DecomposeShape(s[0]);
      Decompose(s[0]) + DecomposeAll(s[1..])
  }

  /** Decomposition works code point by code point: a string of one code
      point decomposes by the table. */
  lemma DecomposeAllSingle(c: char)
    ensures DecomposeAll([c]) == Decompose(c)
  {
    assert [c][1..] == [];
  }

  /** Decomposing a concatenation decomposes each part. */
  lemma {:induction false} DecomposeAllAppend(a: string, b: string)
    ensures DecomposeAll(a + b) == DecomposeAll(a) + DecomposeAll(b)
    decreases |a|
  {
    if a != [] {
      assert (a + b)[0] == a[0] && (a + b)[1..] == a[1..] + b;
      DecomposeAllAppend(a[1..], b);
      assert DecomposeAll(a + b) == Decompose(a[0]) + (DecomposeAll(a[1..]) + DecomposeAll(b));
    } else {
      assert a + b == b;
    }
  }

  /** `s.replace(/[\u0300-\u036f]/g, "")`. */
  function StripMarks(s: string): (r: string)
    ensures forall i :: 0 <= i < |r| ==> !IsCombiningMark(r[i])
    ensures forall c :: c in r <==> c in s && !IsCombiningMark(c)
  {
    if s == [] then []
    else if IsCombiningMark(s[0]) then StripMarks(s[1..])
    else [s[0]] + StripMarks(s[1..])
  }

  /** Deleting the marks is `Array.filter` over the code points: the other
      code points stay, in order and as often as they occur. */
  lemma {:induction false} StripMarksIsFilter(s: string)
    ensures StripMarks(s) == Filter(s, c => !IsCombiningMark(c))
  {
    if s != [] {
      StripMarksIsFilter(s[1..]);
    }
  }

  /** Deleting the marks of a concatenation deletes them in each part. */
  lemma {:induction false} StripMarksAppend(a: string, b: string)
    ensures StripMarks(a + b) == StripMarks(a) + StripMarks(b)
    decreases |a|
  {
    if a != [] {
      assert (a + b)[0] == a[0] && (a + b)[1..] == a[1..] + b;
      StripMarksAppend(a[1..], b);
      if IsCombiningMark(a[0]) {
        assert StripMarks(a) == StripMarks(a[1..]);
        assert StripMarks(a + b) == StripMarks(a[1..] + b);
      } else {
        assert StripMarks(a) == [a[0]] + StripMarks(a[1..]);
        assert StripMarks(a + b) == [a[0]] + StripMarks(a[1..] + b);
      }
    } else {
      assert a + b == b;
    }
  }

  /** `normalizeString(str)` for a string argument: empty for the empty
      string, otherwise free of combining marks. */
  function Normalize(s: string): (r: string)
    ensures s == "" ==> r == ""
    ensures forall i :: 0 <= i < |r| ==> !IsCombiningMark(r[i])
  {
    if s == "" then "" else StripMarks(DecomposeAll(LowerAll(s)))
  }

  /** `normalizeString(record.Field)`: an absent property is falsy and gives
      the empty string. */
  function NormalizeField(field: Option<string>): (r: string)
    ensures field.None? ==> r == ""
    ensures field.Some? ==> r == Normalize(field.value)
  {
    match field
    case None => ""
    case Some(s) => Normalize(s)
  }

  /** A code point the normaliser leaves alone: not a mark, already lower
      case and not decomposable. */
  predicate IsNormalChar(c: char) {
    !IsCombiningMark(c) && LowerChar(c) == c && Decompose(c) == [c]
  }

  /** A code point decomposes to itself or to an ASCII lower-case letter
      followed by a combining mark. */
  lemma DecomposeShape(c: char)
    ensures var parts := Decompose(c);
      parts == [c] || (|parts| == 2 && 'a' <= parts[0] <= 'z' && IsCombiningMark(parts[1]))
  {
  }

  lemma AsciiLowerIsNormal(c: char)
    requires 'a' <= c <= 'z'
    ensures IsNormalChar(c)
  {
  }

  /** Each code point that survives lower-casing, decomposition and mark
      removal is one the normaliser leaves alone. */
  lemma DecomposedLowerIsNormal(c: char)
    ensures forall d :: d in Decompose(LowerChar(c)) && !IsCombiningMark(d) ==> IsNormalChar(d)
  {
    var l := LowerChar(c);
    assert LowerChar(l) == l;
    DecomposeShape(l);
    var parts := Decompose(l);
    if parts != [l] {
      AsciiLowerIsNormal(parts[0]);
      assert forall d :: d in parts ==> d == parts[0] || d == parts[1];
    }
  }

  lemma {:induction false} DecomposeAllIsNormal(s: string)
    ensures forall d :: d in DecomposeAll(LowerAll(s)) && !IsCombiningMark(d) ==> IsNormalChar(d)
    decreases |s|
  {
    if s != [] {
      DecomposedLowerIsNormal(s[0]);
      assert LowerAll(s)[1..] == LowerAll(s[1..]);
      DecomposeAllIsNormal(s[1..]);
    }
  }

  lemma {:induction false} NormalCharsFixed(t: string)
    requires forall d :: d in t ==> IsNormalChar(d)
    ensures t == "" || StripMarks(DecomposeAll(LowerAll(t))) == t
    decreases |t|
  {
    if t != [] {
      assert IsNormalChar(t[0]);
      assert LowerAll(t)[1..] == LowerAll(t[1..]);
      NormalCharsFixed(t[1..]);
      assert DecomposeAll(LowerAll(t)) == [t[0]] + DecomposeAll(LowerAll(t[1..]));
      if t[1..] == [] {
        assert DecomposeAll(LowerAll(t)) == [t[0]];
      }
    }
  }

  /** Normalising twice is normalising once. */
  lemma NormalizeIdempotent(s: string)
    ensures Normalize(Normalize(s)) == Normalize(s)
  {
    if s != "" {
      var r := Normalize(s);
      DecomposeAllIsNormal(s);
      NormalCharsFixed(r);
    }
  }

  lemma LowerExample()
    ensures LowerAll("São") == "são" && LowerAll("Sao") == "sao"
  {
    var lower := LowerAll("São");
    assert lower[0] == 's' && lower[1] == 'ã' && lower[2] == 'o';
    var plain := LowerAll("Sao");
    assert plain[0] == 's' && plain[1] == 'a' && plain[2] == 'o';
  }

  lemma DecomposeExample()
    ensures DecomposeAll("são") == "sa\U{0303}o" && DecomposeAll("sao") == "sao"
  {
    assert DecomposeAll("o") == "o";
    assert DecomposeAll("ão") == "a\U{0303}" + DecomposeAll("o");
    assert DecomposeAll("ao") == "a" + DecomposeAll("o");
  }

  lemma StripExample()
    ensures StripMarks("sa\U{0303}o") == "sao" && StripMarks("sao") == "sao"
  {
    assert StripMarks("o") == "o";
    assert StripMarks("\U{0303}o") == "o";
    assert StripMarks("a\U{0303}o") == "ao";
    assert StripMarks("ao") == "ao";
  }

  /** Accents and case do not matter: "São" and "Sao" normalise alike. */
  lemma NormalizeIgnoresAccent()
    ensures Normalize("São") == Normalize("Sao") == "sao"
  {
    LowerExample();
    DecomposeExample();
    StripExample();
  }

  /** Lowering, decomposing and stripping marks from `[c] + t` handles `c`
      on its own and then `t`. */
  lemma PipelineCons(c: char, t: string)
    ensures StripMarks(DecomposeAll(LowerAll([c] + t)))
      == StripMarks(Decompose(LowerChar(c))) + StripMarks(DecomposeAll(LowerAll(t)))
  {
    var lowered := LowerAll([c] + t);
    assert lowered == [LowerChar(c)] + LowerAll(t);
    assert lowered[1..] == LowerAll(t);
    StripMarksAppend(Decompose(LowerChar(c)), DecomposeAll(LowerAll(t)));
  }

  /** A code point that is not a mark leaves exactly one code point after
      lowering, decomposing and stripping; a mark leaves none. */
  lemma NormalCharCount(c: char)
    ensures IsCombiningMark(c) ==> StripMarks(Decompose(LowerChar(c))) == []
    ensures !IsCombiningMark(c) ==> |StripMarks(Decompose(LowerChar(c)))| == 1
  {
    var l := LowerChar(c);
    DecomposeShape(l);
    var parts := Decompose(l);
    if parts == [l] {
      assert parts[1..] == [];
    } else {
      assert parts[1..] == [parts[1]] && [parts[1]][1..] == [];
      assert StripMarks(parts[1..]) == [];
    }
  }

  lemma {:induction false} PipelineIgnoresMarks(s: string)
    ensures StripMarks(DecomposeAll(LowerAll(s))) == StripMarks(DecomposeAll(LowerAll(StripMarks(s))))
    ensures |StripMarks(DecomposeAll(LowerAll(s)))| == |StripMarks(s)|
    decreases |s|
  {
    if s != [] {
      var c, t := s[0], s[1..];
      assert s == [c] + t;
      PipelineCons(c, t);
      NormalCharCount(c);
      PipelineIgnoresMarks(t);
      if !IsCombiningMark(c) {
        PipelineCons(c, StripMarks(t));
      }
    }
  }

  /** Accent insensitivity for every input: the combining marks of the input
      do not change its normal form, and every other code point of the input
      gives exactly one code point of the normal form. */
  lemma NormalizeIgnoresMarks(s: string)
    ensures Normalize(s) == Normalize(StripMarks(s))
    ensures |Normalize(s)| == |StripMarks(s)|
  {
    PipelineIgnoresMarks(s);
    if s != "" && StripMarks(s) == "" {
      assert StripMarks(DecomposeAll(LowerAll(""))) == "";
    }
  }
}
