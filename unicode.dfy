/** The slice of JavaScript's Unicode handling that text normalisation and slugs rely
    on: `toLowerCase` on ASCII and Latin-1 letters, canonical decomposition
    (`normalize('NFD')`) of the accented Latin-1 letters into a base letter and a
    combining mark, the combining-mark block U+0300..U+036F, and the regular-expression
    classes `\s` and `\w`. Characters outside these tables are left as they are. */
module Unicode {
  import opened Wrappers
  import opened Strings

  predicate IsUpperAscii(c: char) { 'A' <= c <= 'Z' }

  /** The upper-case Latin-1 letters À..Þ (× is not a letter). */
  predicate IsUpperLatin1(c: char) { '\U{C0}' <= c <= '\U{DE}' && c != '\U{D7}' }

  function LowerChar(c: char): char {
    if IsUpperAscii(c) || IsUpperLatin1(c) then (c as int + 32) as char else c
  }

  /** `s.toLowerCase()`. */
  function ToLowerCase(s: string): (r: string)
    ensures |r| == |s|
  {
    seq(|s|, i requires 0 <= i < |s| => LowerChar(s[i]))
  }

  predicate IsCombiningMark(c: char) { '\U{300}' <= c <= '\U{36F}' }

  /** Base letter and combining mark of the lower-case accented Latin-1 letters. */
  function Accent(c: char): Option<(char, char)> {
    match c
    case '\U{E0}' => Some(('a', '\U{300}'))
    case '\U{E1}' => Some(('a', '\U{301}'))
    case '\U{E2}' => Some(('a', '\U{302}'))
    case '\U{E3}' => Some(('a', '\U{303}'))
    case '\U{E4}' => Some(('a', '\U{308}'))
    case '\U{E5}' => Some(('a', '\U{30A}'))
    case '\U{E7}' => Some(('c', '\U{327}'))
    case '\U{E8}' => Some(('e', '\U{300}'))
    case '\U{E9}' => Some(('e', '\U{301}'))
    case '\U{EA}' => Some(('e', '\U{302}'))
    case '\U{EB}' => Some(('e', '\U{308}'))
    case '\U{EC}' => Some(('i', '\U{300}'))
    case '\U{ED}' => Some(('i', '\U{301}'))
    case '\U{EE}' => Some(('i', '\U{302}'))
    case '\U{EF}' => Some(('i', '\U{308}'))
    case '\U{F1}' => Some(('n', '\U{303}'))
    case '\U{F2}' => Some(('o', '\U{300}'))
    case '\U{F3}' => Some(('o', '\U{301}'))
    case '\U{F4}' => Some(('o', '\U{302}'))
    case '\U{F5}' => Some(('o', '\U{303}'))
    case '\U{F6}' => Some(('o', '\U{308}'))
    case '\U{F9}' => Some(('u', '\U{300}'))
    case '\U{FA}' => Some(('u', '\U{301}'))
    case '\U{FB}' => Some(('u', '\U{302}'))
    case '\U{FC}' => Some(('u', '\U{308}'))
    case '\U{FD}' => Some(('y', '\U{301}'))
    case '\U{FF}' => Some(('y', '\U{308}'))
    case _ => None
  }

  /** The canonical decomposition of one character. */
  function Decompose(c: char): (r: string)
    ensures 1 <= |r| <= 2
  {
    match Accent(c)
    case Some(pair) => [pair.0, pair.1]
    case None =>
      if IsUpperLatin1(c) then
        match Accent(LowerChar(c))
        case Some(pair) => [(pair.0 as int - 32) as char, pair.1]
        case None => [c]
      else [c]
  }

  /** `s.normalize('NFD')`. */
  function Nfd(s: string): string
    decreases |s|
  {
    if s == [] then [] else Decompose(s[0]) + Nfd(s[1..])
  }

  /** `s.replace(/[̀-ͯ]/g, '')`. */
  function StripMarks(s: string): (r: string)
    ensures |r| <= |s|
    ensures forall i :: 0 <= i < |r| ==> !IsCombiningMark(r[i])
    decreases |s|
  {
    if s == [] then []
    else if IsCombiningMark(s[0]) then StripMarks(s[1..])
    else [s[0]] + StripMarks(s[1..])
  }

  /** `\s` (and what `trim` removes): white space and line terminators. */
  predicate IsSpace(c: char) {
    c == '\t' || c == '\n' || c == '\U{B}' || c == '\U{C}' || c == '\r' || c == ' '
    || c == '\U{A0}' || c == '\U{1680}' || ('\U{2000}' <= c <= '\U{200A}')
    || c == '\U{2028}' || c == '\U{2029}' || c == '\U{202F}' || c == '\U{205F}'
    || c == '\U{3000}' || c == '\U{FEFF}'
  }

  /** `\w`: ASCII letters, digits and underscore. */
  predicate IsWordChar(c: char) {
    ('a' <= c <= 'z') || ('A' <= c <= 'Z') || ('0' <= c <= '9') || c == '_'
  }

  // ---------------------------------------------------------------------------
  // Folding: lower-case, decompose, drop the combining marks.

  function Fold(s: string): string {
    StripMarks(Nfd(ToLowerCase(s)))
  }

  /** A character folding leaves alone. */
  predicate FoldedChar(c: char) {
    !IsCombiningMark(c) && LowerChar(c) == c && Decompose(c) == [c]
  }

  predicate Folded(s: string) {
    forall i :: 0 <= i < |s| ==> FoldedChar(s[i])
  }

  lemma {:induction false} NfdAppend(a: string, b: string)
    ensures Nfd(a + b) == Nfd(a) + Nfd(b)
    decreases |a|
  {
    if a != [] {
      assert (a + b)[0] == a[0] && (a + b)[1..] == a[1..] + b;
      NfdAppend(a[1..], b);
    } else {
      assert a + b == b;
    }
  }

  lemma {:induction false} StripMarksAppend(a: string, b: string)
    ensures StripMarks(a + b) == StripMarks(a) + StripMarks(b)
    decreases |a|
  {
    if a != [] {
      var ab := a + b;
      assert ab[0] == a[0] && ab[1..] == a[1..] + b;
      StripMarksAppend(a[1..], b);
      if IsCombiningMark(a[0]) {
        assert StripMarks(ab) == StripMarks(a[1..] + b);
        assert StripMarks(a) == StripMarks(a[1..]);
      } else {
        assert StripMarks(ab) == [a[0]] + StripMarks(a[1..] + b);
        assert StripMarks(a) == [a[0]] + StripMarks(a[1..]);
      }
    } else {
      assert a + b == b;
    }
  }

  /** Folding works character by character. */
  lemma FoldAppend(a: string, b: string)
    ensures Fold(a + b) == Fold(a) + Fold(b)
  {
    assert ToLowerCase(a + b) == ToLowerCase(a) + ToLowerCase(b);
    NfdAppend(ToLowerCase(a), ToLowerCase(b));
    StripMarksAppend(Nfd(ToLowerCase(a)), Nfd(ToLowerCase(b)));
  }

  /** The accented letters are Latin-1 letters whose base is a lower-case ASCII letter
      and whose accent is a combining mark. */
  lemma AccentParts(c: char)
    ensures Accent(c).Some? ==>
      '\U{E0}' <= c <= '\U{FF}' && 'a' <= Accent(c).value.0 <= 'z'
      && IsCombiningMark(Accent(c).value.1)
  {
  }

  /** Folding turns a character into nothing, or into one folded character that is a
      space only when the character was. */
  lemma FoldChar(c: char)
    ensures Folded(Fold([c]))
    ensures ' ' in Fold([c]) <==> c == ' '
  {
    var l := LowerChar(c);
    assert ToLowerCase([c]) == [l];
    assert !IsUpperLatin1(l) && !IsUpperAscii(l);
    assert l == ' ' <==> c == ' ';
    assert Nfd([l]) == Decompose(l) + Nfd([]);
    AccentParts(l);
    if Accent(l).Some? {
      var b, m := Accent(l).value.0, Accent(l).value.1;
      assert Nfd([l]) == [b, m];
      assert [b, m][1..] == [m] && [m][1..] == [];
      assert StripMarks([m]) == [];
      assert StripMarks([b, m]) == [b] + StripMarks([m]);
      AccentParts(b);
      assert FoldedChar(b);
      assert Fold([c]) == [b];
    } else {
      assert Decompose(l) == [l];
      if IsCombiningMark(l) {
        assert Fold([c]) == [];
      } else {
        assert StripMarks([l]) == [l] + StripMarks([]);
        assert Fold([c]) == [l];
        AccentParts(l);
        assert FoldedChar(l);
      }
    }
  }

  /** Whatever folding produces, folding leaves alone. */
  lemma {:induction false} FoldFolded(s: string)
    ensures Folded(Fold(s))
    ensures ' ' in Fold(s) <==> ' ' in s
    decreases |s|
  {
    if s == [] {
      assert Fold(s) == [];
    } else {
      assert s == [s[0]] + s[1..];
      FoldAppend([s[0]], s[1..]);
      FoldChar(s[0]);
      FoldFolded(s[1..]);
    }
  }

  lemma {:induction false} FoldFixes(s: string)
    requires Folded(s)
    ensures Fold(s) == s
    decreases |s|
  {
    if s != [] {
      assert s == [s[0]] + s[1..];
      FoldAppend([s[0]], s[1..]);
      assert ToLowerCase([s[0]]) == [s[0]];
      assert Nfd([s[0]]) == [s[0]] + Nfd([]);
      assert StripMarks([s[0]]) == [s[0]] + StripMarks([]);
      FoldFixes(s[1..]);
    }
  }

  /** Folding twice is folding once. */
  lemma FoldIdempotent(s: string)
    ensures Fold(Fold(s)) == Fold(s)
  {
    FoldFolded(s);
    FoldFixes(Fold(s));
  }

  /** A word found in a text is still found after both are folded. */
  lemma FoldKeepsContains(text: string, w: string)
    requires Contains(text, w)
    ensures Contains(Fold(text), Fold(w))
  {
    var i: int :| OccursAt(text, w, i);
    assert OccursAt(text, w, i);
    assert 0 <= i <= |text| - |w| && text[i..i + |w|] == w;
    var p, q := text[..i], text[i + |w|..];
    assert text == p + w + q;
    FoldAppend(p + w, q);
    FoldAppend(p, w);
    var j := |Fold(p)|;
    assert Fold(text)[j..j + |Fold(w)|] == Fold(w);
    assert OccursAt(Fold(text), Fold(w), j);
  }
}
