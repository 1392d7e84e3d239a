/** Texts cut short: what is read from a prefix is read from the whole, and what is not can be told to be cut. */
module JsonTruncation {
  import opened Bytes
  import opened IntegerReader
  import opened Utf8
  import opened JsonString
  import opened JsonTree
  import opened JsonGrammar
  import opened NumberText
  import opened NumberTruncation

  // The tests of is_truncated_end, for texts without extensions.

  /** is_truncated_str. */
  predicate TruncatedWord(v: seq<byte>, i: nat, word: seq<byte>) {
    i < |v| < i + |word| && v[i..] == word[..|v| - i]
  }

  predicate TruncatedLiteral(v: seq<byte>, i: nat) {
    TruncatedWord(v, i, TRUE) || TruncatedWord(v, i, FALSE) || TruncatedWord(v, i, NULL)
  }

  /** A unicode escape, or a surrogate pair, that ends too soon. */
  predicate TruncatedEscape(v: seq<byte>, i: nat)
    requires i < |v|
  {
    var len := |v| - i;
    if len == 1 then true
    else if len <= 5 then v[i + 1] == LETTER_U && forall k | i + 2 <= k < |v| :: HexValue(v[k]) < 16
    else if len <= 11 then
      && v[i + 1] == LETTER_U && HexAt(v, i + 2).Some? && HexAt(v, i + 2).value / 2048 == 27
      && (len > 6 ==> v[i + 6] == BACKSLASH) && (len > 7 ==> v[i + 7] == LETTER_U)
      && (len > 8 ==> v[i + 8] == 100 || v[i + 8] == 68)
      && (len > 9 ==> 99 <= v[i + 9] <= 102 || 67 <= v[i + 9] <= 70)
      && (len > 10 ==> HexValue(v[i + 10]) < 16)
    else false
  }

  /** is_truncated_utf8. */
  predicate TruncatedUtf8(v: seq<byte>, i: nat)
    requires i < |v|
  {
    var len := |v| - i;
    if v[i] < 0x80 || len >= 4 then false
    else if len == 1 then
      || (v[i] / 32 == 6 && v[i] % 32 / 2 != 0) || v[i] / 16 == 14 || (v[i] / 8 == 30 && v[i] % 8 <= 4)
    else
      var t3, t4 := v[i] % 16 * 2 + v[i + 1] / 32 % 2, v[i] % 8 * 4 + v[i + 1] / 16 % 4;
      if len == 2 && v[i] / 16 == 14 && v[i + 1] / 64 == 2 then 1 <= t3 && t3 != 27
      else v[i] / 8 == 30 && v[i + 1] / 64 == 2 && (len == 3 ==> v[i + 2] / 64 == 2) && 1 <= t4 <= 16
  }

  /** The test for a string that fails at `p`. */
  predicate StringTruncated(v: seq<byte>, p: nat) {
    p >= |v| || if v[p] == BACKSLASH then TruncatedEscape(v, p) else TruncatedUtf8(v, p)
  }

  /** The test when no value of one slot can be read at `i`. */
  predicate ScalarTruncated(v: seq<byte>, i: nat) {
    var b := At(v, i);
    if StartsNumber(b) then NumberError(v, i) >= |v|
    else if b == QUOTE then StringAt(v, i + 1).Fail? && StringTruncated(v, StringAt(v, i + 1).pos)
    else i >= |v| || ((b == TRUE[0] || b == FALSE[0] || b == NULL[0]) && TruncatedLiteral(v, i))
  }

  // Strings.

  lemma HexCut(v: seq<byte>, s: seq<byte>, i: nat)
    requires CutOf(v, s)
    ensures HexAt(v, i).Some? ==> HexAt(s, i) == HexAt(v, i)
    ensures i + 4 <= |v| ==> HexAt(s, i) == HexAt(v, i)
  {
    AtCut(v, s, i);
    AtCut(v, s, i + 1);
    AtCut(v, s, i + 2);
    AtCut(v, s, i + 3);
    hide HexValue;
    if HexAt(v, i).Some? {
      assert i + 4 <= |v|;
    }
  }

  lemma CharLengthCut(v: seq<byte>, s: seq<byte>, i: nat)
    requires CutOf(v, s) && i < |v|
    ensures CharLength(v, i) > 0 ==> CharLength(s, i) == CharLength(v, i)
    ensures i + CharLength(s, i) <= |v| ==> CharLength(v, i) == CharLength(s, i)
  {
    AtCut(v, s, i);
    AtCut(v, s, i + 1);
    AtCut(v, s, i + 2);
    AtCut(v, s, i + 3);
  }

  lemma UnicodeCut(v: seq<byte>, s: seq<byte>, i: nat)
    requires CutOf(v, s) && i < |v|
    ensures UnicodeAt(v, i).Chars? ==> UnicodeAt(s, i) == UnicodeAt(v, i)
    ensures UnicodeAt(s, i).Chars? && i + UnicodeAt(s, i).size <= |v| ==> UnicodeAt(v, i) == UnicodeAt(s, i)
  {
    HexCut(v, s, i + 2);
    HexCut(v, s, i + 8);
    AtCut(v, s, i + 6);
    AtCut(v, s, i + 7);
    hide HexAt, Encoded;
  }

  /** A piece read from the prefix is a piece of the whole text, and the other way round if it fits. */
  lemma PieceCut(v: seq<byte>, s: seq<byte>, i: nat)
    requires CutOf(v, s) && i < |v|
    ensures !PieceAt(v, i).Bad? ==> PieceAt(s, i) == PieceAt(v, i)
    ensures PieceAt(s, i).Quote? ==> PieceAt(v, i).Quote?
    ensures PieceAt(s, i).Chars? && i + PieceAt(s, i).size <= |v| ==> PieceAt(v, i) == PieceAt(s, i)
  {
    AtCut(v, s, i);
    AtCut(v, s, i + 1);
    UnicodeCut(v, s, i);
    CharLengthCut(v, s, i);
    hide UnicodeAt, CharLength;
    if At(v, i) >= 32 && CharLength(s, i) > 0 && i + CharLength(s, i) <= |v| {
      assert v[i..i + CharLength(s, i)] == s[i..i + CharLength(s, i)];
    }
  }

  /** The pieces that are cut are those the tests recognise. */
  lemma CutUtf8(v: seq<byte>, s: seq<byte>, i: nat)
    requires CutOf(v, s) && i < |v| && At(s, i) >= 128 && CharLength(s, i) > 0 && i + CharLength(s, i) > |v|
    ensures TruncatedUtf8(v, i)
  {
    AtCut(v, s, i);
    AtCut(v, s, i + 1);
    AtCut(v, s, i + 2);
  }

  lemma CutUnicode(v: seq<byte>, s: seq<byte>, i: nat)
    requires CutOf(v, s) && i < |v| && At(s, i) == BACKSLASH && At(s, i + 1) == LETTER_U
    requires UnicodeAt(s, i).Chars? && i + UnicodeAt(s, i).size > |v|
    ensures TruncatedEscape(v, i)
  {
    var h := HexAt(s, i + 2);
    HexDigitsOf(s, i + 2);
    forall k | i <= k < |v| ensures v[k] == At(s, k) {
      AtCut(v, s, k);
    }
    if |v| - i > 5 {
      HexCut(v, s, i + 2);
      HexDigitsOf(s, i + 8);
      if |v| - i > 8 {
        LowDigits(s, i + 8);
      }
    }
    hide HexAt, Encoded;
  }

  lemma HexDigitsOf(s: seq<byte>, i: nat)
    requires HexAt(s, i).Some?
    ensures forall k | i <= k < i + 4 :: HexValue(At(s, k)) < 16
    ensures HexAt(s, i).value / 1024 == HexValue(At(s, i)) * 4 + HexValue(At(s, i + 1)) / 4
  {
  }

  /** A low surrogate begins with a D, and then a C, D, E or F. */
  lemma LowDigits(s: seq<byte>, i: nat)
    requires HexAt(s, i).Some? && LowSurrogate(HexAt(s, i).value)
    ensures At(s, i) == 100 || At(s, i) == 68
    ensures 99 <= At(s, i + 1) <= 102 || 67 <= At(s, i + 1) <= 70
  {
    HexDigitsOf(s, i);
    hide HexAt;
    assert HexValue(At(s, i)) == 13 && HexValue(At(s, i + 1)) >= 12;
  }

  lemma CutPiece(v: seq<byte>, s: seq<byte>, i: nat)
    requires CutOf(v, s) && PieceAt(v, i).Bad? && !PieceAt(s, i).Bad?
    ensures StringTruncated(v, i)
  {
    if i < |v| {
      PieceCut(v, s, i);
      AtCut(v, s, i);
      assert PieceAt(s, i).Chars? && i + PieceAt(s, i).size > |v|;
      if At(s, i) == BACKSLASH {
        if At(s, i + 1) == LETTER_U {
          CutUnicode(v, s, i);
        } else {
          assert PieceAt(s, i).size == 2;
        }
      } else {
        CutUtf8(v, s, i);
      }
    }
  }

  /** A string read from the prefix is the string of the whole text. */
  lemma {:induction false} StringCut(v: seq<byte>, s: seq<byte>, i: nat)
    requires CutOf(v, s)
    ensures StringAt(v, i).Done? ==> StringAt(s, i) == StringAt(v, i)
    decreases |v| - i
  {
    hide PieceAt;
    if i < |v| {
      PieceCut(v, s, i);
      if PieceAt(v, i).Chars? {
        StringCut(v, s, i + PieceAt(v, i).size);
      }
    } else {
      NoPieceBeyond(v, i);
    }
  }

  lemma NoPieceBeyond(v: seq<byte>, i: nat)
    requires i >= |v|
    ensures PieceAt(v, i).Bad?
  {
  }

  /** A string of the whole text that the prefix cuts fails where the tests recognise it. */
  lemma {:induction false} StringCutShort(v: seq<byte>, s: seq<byte>, i: nat)
    requires CutOf(v, s) && StringAt(v, i).Fail? && StringAt(s, i).Done?
    ensures StringTruncated(v, StringAt(v, i).pos)
    decreases |v| - i
  {
    if PieceAt(v, i).Bad? {
      CutPiece(v, s, i);
    } else {
      PieceCut(v, s, i);
      hide PieceAt;
      StringCutShort(v, s, i + PieceAt(v, i).size);
    }
  }

  /** What has been read of a string when it fails: the state kept for the next call. */
  function ReadSoFar(v: seq<byte>, i: nat): (seq<byte>, nat)
    decreases |v| - i
  {
    match PieceAt(v, i)
    case Quote | Bad => ([], i)
    case Chars(b, n) =>
      var (done, p) := ReadSoFar(v, i + n);
      (b + done, p)
  }

  /** A string cut by the prefix goes on from where it failed, with what was read of it. */
  lemma {:induction false} StringResumes(v: seq<byte>, s: seq<byte>, i: nat)
    requires CutOf(v, s) && StringAt(v, i).Fail?
    ensures var (done, p) := ReadSoFar(v, i);
            && p == StringAt(v, i).pos
            && StringAt(s, i) == match StringAt(s, p) case Fail(q) => Fail(q) case Done(t, end) => Done(done + t, end)
    decreases |v| - i
  {
    hide PieceAt;
    if PieceAt(v, i).Bad? {
      ResumesHere(s, i);
    } else if i < |v| {
      PieceCut(v, s, i);
      var b, n := PieceAt(v, i).bytes, PieceAt(v, i).size;
      StringResumes(v, s, i + n);
      var (done, p) := ReadSoFar(v, i + n);
      if StringAt(s, p).Done? {
        assert b + (done + StringAt(s, p).bytes) == b + done + StringAt(s, p).bytes;
      }
    } else {
      NoPieceBeyond(v, i);
    }
  }

  lemma ResumesHere(s: seq<byte>, i: nat)
    ensures StringAt(s, i).Done? ==> [] + StringAt(s, i).bytes == StringAt(s, i).bytes
  {
  }

  // Values of one slot.

  lemma KeyCut(v: seq<byte>, s: seq<byte>, i: nat)
    requires CutOf(v, s) && i < |v|
    ensures KeyAt(v, i).Some? ==> KeyAt(s, i) == KeyAt(v, i)
    ensures KeyAt(v, i).None? && KeyAt(s, i).Some? ==> ScalarTruncated(v, i)
  {
    AtCut(v, s, i);
    StringCut(v, s, i + 1);
    if StringAt(v, i + 1).Fail? && StringAt(s, i + 1).Done? {
      StringCutShort(v, s, i + 1);
    }
    hide StringAt, StringTruncated;
  }

  lemma WordCut(v: seq<byte>, s: seq<byte>, i: nat, word: seq<byte>)
    requires CutOf(v, s) && i < |v|
    ensures Holds(v, i, word) ==> Holds(s, i, word)
    ensures !Holds(v, i, word) && Holds(s, i, word) ==> TruncatedWord(v, i, word)
  {
    if i + |word| <= |v| {
      assert v[i..i + |word|] == s[i..i + |word|];
    } else if Holds(s, i, word) {
      assert v[i..] == s[i..i + |word|][..|v| - i];
    }
  }

  /**
    Read from the prefix, unless it is a number up to its very end, it is the value of the whole text; and if only
    the prefix lacks it, the tests say that it is cut, unless it is a number too large so far.
   */
  lemma ScalarCut(v: seq<byte>, s: seq<byte>, i: nat)
    requires CutOf(v, s) && i < |v|
    ensures ScalarAt(v, i).Some? && (StartsNumber(At(v, i)) ==> ScalarAt(v, i).value.1 < |v|) ==>
              ScalarAt(s, i) == ScalarAt(v, i)
    ensures ScalarAt(v, i).None? && ScalarAt(s, i).Some? ==>
              (ScalarTruncated(v, i) <==> !(StartsNumber(At(v, i)) && Refused(v, i)))
  {
    AtCut(v, s, i);
    KeyCut(v, s, i);
    WordCut(v, s, i, TRUE);
    WordCut(v, s, i, FALSE);
    WordCut(v, s, i, NULL);
    if NumberAt(v, i).Some? && NumberAt(v, i).value.1 < |v| {
      NumberCut(v, s, i);
    }
    if NumberAt(v, i).None? && NumberAt(s, i).Some? {
      NumberCutShort(v, s, i);
    }
    hide NumberAt, KeyAt, Holds, TruncatedWord, NumberError, StringAt, StringTruncated, Refused;
  }

  // What the whole text has in the prefix is read from the prefix.

  lemma {:induction false} StringSeen(v: seq<byte>, s: seq<byte>, i: nat)
    requires CutOf(v, s) && StringAt(s, i).Done? && StringAt(s, i).end <= |v|
    ensures StringAt(v, i) == StringAt(s, i)
    decreases |v| - i
  {
    StringEnds(s, i);
    PieceCut(v, s, i);
    hide PieceAt;
    if PieceAt(s, i).Chars? {
      StringEnds(s, i + PieceAt(s, i).size);
      StringSeen(v, s, i + PieceAt(s, i).size);
    }
  }

  lemma KeySeen(v: seq<byte>, s: seq<byte>, i: nat)
    requires CutOf(v, s) && i < |v| && KeyAt(s, i).Some? && KeyAt(s, i).value.1 <= |v|
    ensures KeyAt(v, i) == KeyAt(s, i)
  {
    AtCut(v, s, i);
    StringSeen(v, s, i + 1);
    hide StringAt;
  }
}
