/**
  ASCII stand-ins for the string helpers the listing controller calls:
  PHP's strtolower, trim, ucwords and explode, Laravel's Str::contains and
  Str::slug, and the decimal rendering of an integer.  Each is written out so
  that the controller's rules can be stated over it; non-ASCII letters,
  transliteration and locales are not modelled.
 */
module Text {

  // ---------------------------------------------------------------------
  // Characters
  // ---------------------------------------------------------------------

  predicate IsUpper(c: char) { 'A' <= c <= 'Z' }
  predicate IsLower(c: char) { 'a' <= c <= 'z' }
  predicate IsDigit(c: char) { '0' <= c <= '9' }

  /** strtolower on one byte: only the ASCII upper-case letters change. */
  function LowerChar(c: char): char
  {
    if IsUpper(c) then (c as int + 32) as char else c
  }

  /** The upper-case counterpart used by ucwords. */
  function UpperChar(c: char): char
  {
    if IsLower(c) then (c as int - 32) as char else c
  }

  lemma LowerOfUpper(c: char)
    ensures LowerChar(UpperChar(c)) == LowerChar(c)
  {
  }

  /** The characters PHP's trim removes by default: " \t\n\r\0\x0B". */
  predicate IsTrimmable(c: char)
  {
    c as int == 32 || c as int == 9 || c as int == 10 || c as int == 13 || c as int == 0 || c as int == 11
  }

  /** The word delimiters of ucwords: " \t\r\n\f\v". */
  predicate IsWordDelimiter(c: char)
  {
    c as int == 32 || c as int == 9 || c as int == 13 || c as int == 10 || c as int == 12 || c as int == 11
  }

  /** The \s class of the regular expressions inside Str::slug. */
  predicate IsSpace(c: char)
  {
    c as int == 32 || (9 <= c as int <= 13)
  }

  // ---------------------------------------------------------------------
  // strtolower
  // ---------------------------------------------------------------------

  function ToLower(s: string): (r: string)
    ensures |r| == |s|
    ensures forall i :: 0 <= i < |s| ==> r[i] == LowerChar(s[i])
  {
    if s == [] then [] else [LowerChar(s[0])] + ToLower(s[1..])
  }

  // ---------------------------------------------------------------------
  // trim, and Laravel's filled()
  // ---------------------------------------------------------------------

  function TrimLeft(s: string): (r: string)
    ensures r == [] || !IsTrimmable(r[0])
    ensures |r| <= |s| && r == s[|s| - |r|..]
  {
    if s != [] && IsTrimmable(s[0]) then TrimLeft(s[1..]) else s
  }

  function TrimRight(s: string): (r: string)
    ensures r == [] || !IsTrimmable(r[|r| - 1])
    ensures |r| <= |s| && r == s[..|r|]
  {
    if s != [] && IsTrimmable(s[|s| - 1]) then TrimRight(s[..|s| - 1]) else s
  }

  /** PHP's trim with its default character list. */
  function Trim(s: string): (r: string)
    ensures r == [] || (!IsTrimmable(r[0]) && !IsTrimmable(r[|r| - 1]))
  {
    TrimRight(TrimLeft(s))
  }

  /**
    Laravel's `filled`: the input is present and not blank.  An absent input
    is modelled as "".  Read here character by character; `FilledIsTrimmed`
    shows it is the same as "still has characters once trimmed".
   */
  predicate Filled(v: string)
  {
    v != [] && (!IsTrimmable(v[0]) || Filled(v[1..]))
  }

  /** A value is filled exactly when some character of it is not white space that trim removes. */
  lemma {:induction false} FilledIff(v: string)
    ensures Filled(v) <==> exists i :: 0 <= i < |v| && !IsTrimmable(v[i])
  {
    if v != [] {
      FilledIff(v[1..]);
      if i :| 0 <= i < |v| && !IsTrimmable(v[i]) {
        if i > 0 {
          assert v[1..][i - 1] == v[i];
        }
      }
      if i :| 0 <= i < |v[1..]| && !IsTrimmable(v[1..][i]) {
        assert v[i + 1] == v[1..][i];
      }
    }
  }

  /** Filled is PHP's trim leaving something behind. */
  lemma FilledIsTrimmed(v: string)
    ensures Filled(v) <==> Trim(v) != []
  {
    FilledIff(v);
    if i :| 0 <= i < |v| && !IsTrimmable(v[i]) {
      TrimKeeps(v, i);
    }
    if Trim(v) != [] {
      var j := TrimmedFirst(v);
    }
  }

  /** A character trim does not remove keeps the trimmed text non-empty. */
  lemma TrimKeeps(v: string, i: int)
    requires 0 <= i < |v| && !IsTrimmable(v[i])
    ensures Trim(v) != []
  {
    var tl := TrimLeft(v);
    TrimLeftKeeps(v, i);
    TrimRightKeeps(tl, i - (|v| - |tl|));
  }

  /** A non-empty trimmed text starts at a character of the input trim does not remove. */
  lemma TrimmedFirst(v: string) returns (j: int)
    requires Trim(v) != []
    ensures 0 <= j < |v| && !IsTrimmable(v[j])
  {
    var tl := TrimLeft(v);
    j := |v| - |tl|;
    assert Trim(v)[0] == tl[0];
  }

  lemma {:induction false} TrimLeftKeeps(s: string, i: int)
    requires 0 <= i < |s| && !IsTrimmable(s[i])
    ensures |s| - |TrimLeft(s)| <= i
  {
    if IsTrimmable(s[0]) {
      TrimLeftKeeps(s[1..], i - 1);
    }
  }

  lemma {:induction false} TrimRightKeeps(s: string, i: int)
    requires 0 <= i < |s| && !IsTrimmable(s[i])
    ensures i < |TrimRight(s)|
  {
    if IsTrimmable(s[|s| - 1]) {
      TrimRightKeeps(s[..|s| - 1], i);
    }
  }

  // ---------------------------------------------------------------------
  // Substrings and Str::contains
  // ---------------------------------------------------------------------

  /** `n` occurs as a contiguous block somewhere in `h`. */
  predicate IsSubstring(n: string, h: string)
    decreases |h|
  {
    n <= h || (h != [] && IsSubstring(n, h[1..]))
  }

  /** `n` occurs in `h` starting at offset `i`. */
  predicate OccursAt(n: string, h: string, i: int)
  {
    0 <= i && i + |n| <= |h| && h[i..i + |n|] == n
  }

  /** The positional reading of IsSubstring: some offset of `h` starts a copy of `n`. */
  lemma {:induction false} SubstringAt(n: string, h: string)
    ensures IsSubstring(n, h) <==> exists i :: OccursAt(n, h, i)
    decreases |h|
  {
    if n <= h {
      assert OccursAt(n, h, 0);
    } else if h == [] {
    } else {
      SubstringAt(n, h[1..]);
      if IsSubstring(n, h[1..]) {
        var i :| OccursAt(n, h[1..], i);
        OccursShift(n, h, i);
      }
      if i :| OccursAt(n, h, i) {
        if i == 0 {
          OccursAtStart(n, h);
        } else {
          OccursUnshift(n, h, i);
        }
      }
    }
  }

  /** An occurrence in the tail of `h` is one in `h`, one place later. */
  lemma OccursShift(n: string, h: string, i: int)
    requires h != [] && OccursAt(n, h[1..], i)
    ensures OccursAt(n, h, i + 1)
  {
    assert h[i + 1..i + 1 + |n|] == h[1..][i..i + |n|];
  }

  /** An occurrence at offset 0 is a prefix. */
  lemma OccursAtStart(n: string, h: string)
    requires OccursAt(n, h, 0)
    ensures n <= h
  {
    assert n == h[..|n|];
  }

  /** An occurrence in `h` past its first place is one in its tail, one place earlier. */
  lemma OccursUnshift(n: string, h: string, i: int)
    requires OccursAt(n, h, i) && i != 0
    ensures OccursAt(n, h[1..], i - 1)
  {
    assert h[1..][i - 1..i - 1 + |n|] == h[i..i + |n|];
  }

  /**
    Laravel's Str::contains with a single needle: an empty needle never
    matches; otherwise it matches when it occurs in the haystack.
   */
  predicate StrContains(haystack: string, needle: string)
  {
    needle != [] && IsSubstring(needle, haystack)
  }

  // ---------------------------------------------------------------------
  // explode and implode
  // ---------------------------------------------------------------------

  /** PHP's explode: the pieces of `s` between occurrences of `d`, never empty. */
  function Explode(s: string, d: char): (r: seq<string>)
    ensures |r| >= 1
  {
    if s == [] then [[]]
    else if s[0] == d then [[]] + Explode(s[1..], d)
    else var rest := Explode(s[1..], d); [[s[0]] + rest[0]] + rest[1..]
  }

  /** PHP's implode: the pieces glued back together with `d` between them. */
  function Implode(pieces: seq<string>, d: char): string
  {
    if pieces == [] then []
    else if |pieces| == 1 then pieces[0]
    else pieces[0] + [d] + Implode(pieces[1..], d)
  }

  predicate Free(s: string, d: char)
  {
    forall i :: 0 <= i < |s| ==> s[i] != d
  }

  /** Gluing the pieces back gives the original text, and no piece holds the delimiter. */
  lemma {:induction false} ImplodeExplode(s: string, d: char)
    ensures Implode(Explode(s, d), d) == s
  {
    if s == [] {
    } else if s[0] == d {
      ImplodeExplode(s[1..], d);
      assert Explode(s, d) == [[]] + Explode(s[1..], d);
      assert Explode(s, d)[1..] == Explode(s[1..], d);
      assert s == [] + [d] + s[1..];
    } else {
      ImplodeExplode(s[1..], d);
      var rest := Explode(s[1..], d);
      var r := Explode(s, d);
      assert r == [[s[0]] + rest[0]] + rest[1..];
      if |rest| == 1 {
        assert s == [s[0]] + s[1..];
      } else {
        assert r[1..] == rest[1..];
        assert Implode(rest, d) == rest[0] + [d] + Implode(rest[1..], d);
        assert s == [s[0]] + s[1..];
      }
    }
  }

  /** No piece of an explode contains the delimiter. */
  lemma {:induction false} ExplodePiecesFree(s: string, d: char)
    ensures forall k :: 0 <= k < |Explode(s, d)| ==> Free(Explode(s, d)[k], d)
  {
    if s != [] {
      ExplodePiecesFree(s[1..], d);
      var rest := Explode(s[1..], d);
      var r := Explode(s, d);
      if s[0] == d {
        assert r == [[]] + rest;
        forall k | 0 <= k < |r| ensures Free(r[k], d) {
          if k > 0 {
            assert r[k] == rest[k - 1];
          }
        }
      } else {
        assert r == [[s[0]] + rest[0]] + rest[1..];
        forall k | 0 <= k < |r| ensures Free(r[k], d) {
          if k == 0 {
            assert Free(rest[0], d);
          } else {
            assert r[k] == rest[k];
          }
        }
      }
    }
  }

  /** The converse round trip: exploding a glued list of delimiter-free pieces gives the list back. */
  lemma {:induction false} ExplodeImplode(pieces: seq<string>, d: char)
    requires pieces != []
    requires forall k :: 0 <= k < |pieces| ==> Free(pieces[k], d)
    ensures Explode(Implode(pieces, d), d) == pieces
    decreases |pieces|
  {
    if |pieces| == 1 {
      ExplodeFree(pieces[0], d);
    } else {
      ExplodeImplode(pieces[1..], d);
      ExplodeGlued(pieces[0], Implode(pieces[1..], d), d);
      assert pieces == [pieces[0]] + pieces[1..];
    }
  }

  lemma {:induction false} ExplodeFree(w: string, d: char)
    requires Free(w, d)
    ensures Explode(w, d) == [w]
  {
    if w != [] {
      ExplodeFree(w[1..], d);
      assert w == [w[0]] + w[1..];
    }
  }

  lemma {:induction false} ExplodeGlued(w: string, rest: string, d: char)
    requires Free(w, d)
    ensures Explode(w + [d] + rest, d) == [w] + Explode(rest, d)
  {
    if w == [] {
      assert w + [d] + rest == [d] + rest;
      assert ([d] + rest)[1..] == rest;
    } else {
      ExplodeGlued(w[1..], rest, d);
      assert (w + [d] + rest)[1..] == w[1..] + [d] + rest;
      assert w == [w[0]] + w[1..];
    }
  }

  // ---------------------------------------------------------------------
  // ucwords
  // ---------------------------------------------------------------------

  /** ucwords: the first character of each word is upper-cased, nothing else changes. */
  function UcWords(s: string): string
  {
    UcWordsFrom(s, true)
  }

  function UcWordsFrom(s: string, atWordStart: bool): (r: string)
    ensures |r| == |s|
  {
    if s == [] then []
    else [if atWordStart then UpperChar(s[0]) else s[0]] + UcWordsFrom(s[1..], IsWordDelimiter(s[0]))
  }

  /** Upper-casing word starts is invisible once the text is lower-cased. */
  lemma {:induction false} LowerUcWordsFrom(s: string, atWordStart: bool)
    ensures ToLower(UcWordsFrom(s, atWordStart)) == ToLower(s)
  {
    if s != [] {
      LowerUcWordsFrom(s[1..], IsWordDelimiter(s[0]));
      LowerOfUpper(s[0]);
    }
  }

  // ---------------------------------------------------------------------
  // Str::slug
  // ---------------------------------------------------------------------

  /** A character that may appear in a slug. */
  predicate IsSlugChar(c: char)
  {
    IsLower(c) || IsDigit(c) || c == '-'
  }

  /** A slug: lower-case letters and digits in words joined by single hyphens. */
  predicate IsSlug(r: string)
  {
    && (forall i :: 0 <= i < |r| ==> IsSlugChar(r[i]))
    && (r != [] ==> r[0] != '-' && r[|r| - 1] != '-')
    && (forall i :: 0 <= i < |r| - 1 ==> r[i] == '-' ==> r[i + 1] != '-')
  }

  /** What one input character becomes before separators are collapsed. */
  function SlugImage(c: char): string
  {
    var l := LowerChar(c);
    if IsLower(l) || IsDigit(l) then [l]
    else if c == '-' || c == '_' || IsSpace(c) then "-"
    else if c == '@' then "-at-"
    else []
  }

  /** The text with every character replaced by its image. */
  function Normalize(s: string): string
  {
    if s == [] then [] else SlugImage(s[0]) + Normalize(s[1..])
  }

  /** A normalised text holds only slug characters. */
  lemma {:induction false} NormalizeChars(s: string)
    ensures forall i :: 0 <= i < |Normalize(s)| ==> IsSlugChar(Normalize(s)[i])
  {
    if s != [] {
      NormalizeChars(s[1..]);
      var img := SlugImage(s[0]);
      var r := Normalize(s);
      forall i | 0 <= i < |r| ensures IsSlugChar(r[i]) {
        if i < |img| {
          assert img == "-at-" ==> r[i] in "-at-";
        } else {
          assert r[i] == Normalize(s[1..])[i - |img|];
        }
      }
    }
  }

  /** The non-empty pieces of a list of strings, in order. */
  function NonEmpty(pieces: seq<string>): seq<string>
  {
    if pieces == [] then []
    else (if pieces[0] == [] then [] else [pieces[0]]) + NonEmpty(pieces[1..])
  }

  /** What NonEmpty keeps is non-empty and comes from the pieces. */
  lemma {:induction false} NonEmptyFrom(pieces: seq<string>)
    ensures forall k :: 0 <= k < |NonEmpty(pieces)| ==> NonEmpty(pieces)[k] != [] && NonEmpty(pieces)[k] in pieces
  {
    if pieces != [] {
      NonEmptyFrom(pieces[1..]);
      var h: seq<string> := if pieces[0] == [] then [] else [pieces[0]];
      var t := NonEmpty(pieces[1..]);
      var r := NonEmpty(pieces);
      forall k | 0 <= k < |r| ensures r[k] != [] && r[k] in pieces {
        if k < |h| {
          assert r[k] == pieces[0];
        } else {
          assert r[k] == t[k - |h|];
        }
      }
    }
  }

  /** The words of a normalised text: the maximal runs between hyphens. */
  function Words(t: string): seq<string>
  {
    NonEmpty(Explode(t, '-'))
  }

  /**
    Laravel's Str::slug with the separator "-", over ASCII: lower-case,
    letters and digits kept, "-", "_" and white space act as separators,
    "@" becomes "-at-", anything else is dropped; separator runs collapse to one
    hyphen and none is left at either end.
   */
  function Slug(s: string): string
  {
    Implode(Words(Normalize(s)), '-')
  }

  predicate IsWord(w: string)
  {
    w != [] && forall i :: 0 <= i < |w| ==> IsLower(w[i]) || IsDigit(w[i])
  }

  lemma {:induction false} ImplodeWordsIsSlug(ws: seq<string>)
    requires forall k :: 0 <= k < |ws| ==> IsWord(ws[k])
    ensures IsSlug(Implode(ws, '-'))
  {
    if |ws| > 1 {
      ImplodeWordsIsSlug(ws[1..]);
      var tail := Implode(ws[1..], '-');
      var r := ws[0] + ['-'] + tail;
      assert IsWord(ws[0]);
      assert tail != [] by { assert IsWord(ws[1]); ImplodeStartsWith(ws[1..]); }
      forall i | 0 <= i < |r| - 1 ensures r[i] == '-' ==> r[i + 1] != '-' {
        if i < |ws[0]| {
          assert r[i] == ws[0][i];
        } else if i == |ws[0]| {
          assert r[i + 1] == tail[0];
        } else {
          assert r[i] == tail[i - |ws[0]| - 1];
          assert r[i + 1] == tail[i - |ws[0]|];
        }
      }
      forall i | 0 <= i < |r| ensures IsSlugChar(r[i]) {
        if i < |ws[0]| {
          assert r[i] == ws[0][i];
        } else if i > |ws[0]| {
          assert r[i] == tail[i - |ws[0]| - 1];
        }
      }
      assert r[|r| - 1] == tail[|tail| - 1];
    } else if |ws| == 1 {
      assert IsWord(ws[0]);
    }
  }

  lemma {:induction false} ImplodeStartsWith(ws: seq<string>)
    requires ws != [] && ws[0] != []
    ensures Implode(ws, '-') != [] && Implode(ws, '-')[0] == ws[0][0]
  {
  }

  lemma {:induction false} WordsAreWords(t: string)
    requires forall i :: 0 <= i < |t| ==> IsSlugChar(t[i])
    ensures forall k :: 0 <= k < |Words(t)| ==> IsWord(Words(t)[k])
  {
    var pieces := Explode(t, '-');
    ImplodeExplode(t, '-');
    ExplodePiecesFree(t, '-');
    NonEmptyFrom(pieces);
    forall k | 0 <= k < |Words(t)| ensures IsWord(Words(t)[k]) {
      var w := Words(t)[k];
      assert w in pieces;
      var j :| 0 <= j < |pieces| && pieces[j] == w;
      assert Free(w, '-');
      forall i | 0 <= i < |w| ensures IsLower(w[i]) || IsDigit(w[i]) {
        PieceChar(pieces, j, i, '-');
      }
    }
  }

  /** Every character of a piece of an explode occurs in the exploded text. */
  lemma {:induction false} PieceChar(pieces: seq<string>, j: nat, i: nat, d: char)
    requires j < |pieces| && i < |pieces[j]|
    ensures pieces[j][i] in Implode(pieces, d)
    decreases |pieces|
  {
    if |pieces| > 1 {
      if j == 0 {
        assert Implode(pieces, d)[i] == pieces[0][i];
      } else {
        PieceChar(pieces[1..], j - 1, i, d);
        var rest := Implode(pieces[1..], d);
        var k :| 0 <= k < |rest| && rest[k] == pieces[j][i];
        assert Implode(pieces, d)[|pieces[0]| + 1 + k] == rest[k];
      }
    }
  }

  /** Every slug is well formed: lower-case words joined by single hyphens. */
  lemma SlugIsSlug(s: string)
    ensures IsSlug(Slug(s))
  {
    var t := Normalize(s);
    NormalizeChars(s);
    WordsAreWords(t);
    ImplodeWordsIsSlug(Words(t));
  }

  lemma {:induction false} NormalizeLower(s: string)
    ensures Normalize(ToLower(s)) == Normalize(s)
  {
    if s != [] {
      NormalizeLower(s[1..]);
      assert ToLower(s) == [LowerChar(s[0])] + ToLower(s[1..]);
      assert ToLower(s)[1..] == ToLower(s[1..]);
    }
  }

  /** Str::slug ignores letter case: two texts equal up to case give the same slug. */
  lemma SlugIgnoresCase(a: string, b: string)
    requires ToLower(a) == ToLower(b)
    ensures Slug(a) == Slug(b)
  {
    NormalizeLower(a);
    NormalizeLower(b);
  }

  /** A slug is its own slug. */
  lemma SlugIdempotent(s: string)
    ensures Slug(Slug(s)) == Slug(s)
  {
    var r := Slug(s);
    SlugIsSlug(s);
    NormalizeSlug(r);
    var t := Normalize(s);
    NormalizeChars(s);
    WordsAreWords(t);
    var ws := Words(t);
    if ws == [] {
      assert r == [];
    } else {
      forall k | 0 <= k < |ws| ensures Free(ws[k], '-') {
        assert IsWord(ws[k]);
      }
      ExplodeImplode(ws, '-');
      NonEmptyOfNonEmpty(ws);
    }
  }

  lemma {:induction false} NormalizeSlug(r: string)
    requires forall i :: 0 <= i < |r| ==> IsSlugChar(r[i])
    ensures Normalize(r) == r
  {
    if r != [] {
      NormalizeSlug(r[1..]);
      assert IsSlugChar(r[0]);
      assert r == [r[0]] + r[1..];
    }
  }

  lemma {:induction false} NonEmptyOfNonEmpty(ws: seq<string>)
    requires forall k :: 0 <= k < |ws| ==> ws[k] != []
    ensures NonEmpty(ws) == ws
  {
    if ws != [] {
      NonEmptyOfNonEmpty(ws[1..]);
      assert ws == [ws[0]] + ws[1..];
    }
  }

  // ---------------------------------------------------------------------
  // Decimal rendering of integers (PHP's int-to-string conversion)
  // ---------------------------------------------------------------------

  function DigitChar(d: nat): char
    requires d < 10
  {
    ('0' as int + d) as char
  }

  function Decimal(n: nat): (r: string)
    ensures r != []
    ensures forall i :: 0 <= i < |r| ==> IsDigit(r[i])
  {
    if n < 10 then [DigitChar(n)] else Decimal(n / 10) + [DigitChar(n % 10)]
  }

  /** A number between 1000 and 9999 is written with exactly four digits. */
  lemma FourDigits(n: nat)
    requires 1000 <= n <= 9999
    ensures |Decimal(n)| == 4
  {
    assert Decimal(n) == Decimal(n / 10) + [DigitChar(n % 10)];
    assert Decimal(n / 10) == Decimal(n / 10 / 10) + [DigitChar(n / 10 % 10)];
    assert Decimal(n / 10 / 10) == Decimal(n / 10 / 10 / 10) + [DigitChar(n / 10 / 10 % 10)];
    assert n / 10 / 10 / 10 < 10;
  }
}
