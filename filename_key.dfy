/** `extract_xor_info`: recover the chunk size and the key of a variation file from its
    name with one regular-expression search,
        _chunk(\d+)_xor([0-9a-fA-F]{2,}) | _xor_(\d{1,3}) | _xor(\d{2,3}) | _x([0-9a-fA-F]{2})
    A search tries the start positions from left to right and, at each position, the four
    alternatives in order; the first success is the match. */
module FilenameKey {
  import opened Common
  import opened DecimalText

  /** The length of the longest run of decimal digits starting at `i` (what a greedy
      `\d+` consumes). */
  function DigitRun(s: string, i: nat): (n: nat)
    requires i <= |s|
    ensures i + n <= |s|
    ensures i + n == |s| || !IsDigit(s[i + n])
    decreases |s| - i
  {
    if i < |s| && IsDigit(s[i]) then 1 + DigitRun(s, i + 1) else 0
  }

  /** The length of the longest run of hexadecimal digits starting at `i`. */
  function HexRun(s: string, i: nat): (n: nat)
    requires i <= |s|
    ensures i + n <= |s|
    ensures i + n == |s| || !IsHexDigit(s[i + n])
    decreases |s| - i
  {
    if i < |s| && IsHexDigit(s[i]) then 1 + HexRun(s, i + 1) else 0
  }

  /** Every character of a digit run is a digit. */
  lemma {:induction false} DigitRunDigits(s: string, i: nat)
    requires i <= |s|
    ensures AllDigits(s[i..i + DigitRun(s, i)])
    decreases |s| - i
  {
    if i < |s| && IsDigit(s[i]) {
      DigitRunDigits(s, i + 1);
      assert s[i..i + DigitRun(s, i)] == [s[i]] + s[i + 1..i + 1 + DigitRun(s, i + 1)];
    }
  }

  /** Every character of a hexadecimal run is a hexadecimal digit. */
  lemma {:induction false} HexRunDigits(s: string, i: nat)
    requires i <= |s|
    ensures AllHexDigits(s[i..i + HexRun(s, i)])
    decreases |s| - i
  {
    if i < |s| && IsHexDigit(s[i]) {
      HexRunDigits(s, i + 1);
      assert s[i..i + HexRun(s, i)] == [s[i]] + s[i + 1..i + 1 + HexRun(s, i + 1)];
    }
  }

  /** The literals of the pattern, matched character by character at position `p`. */
  predicate LitX(s: string, p: nat)
  {
    p + 2 <= |s| && s[p] == '_' && s[p + 1] == 'x'
  }

  /** `_xor` at `p`. */
  predicate LitXor(s: string, p: nat)
  {
    p + 4 <= |s| && LitX(s, p) && s[p + 2] == 'o' && s[p + 3] == 'r'
  }

  /** `_xor_` at `p`. */
  predicate LitXorUnderscore(s: string, p: nat)
  {
    p + 5 <= |s| && LitXor(s, p) && s[p + 4] == '_'
  }

  /** `_chunk` at `p`. */
  predicate LitChunk(s: string, p: nat)
  {
    p + 6 <= |s| && s[p] == '_' && s[p + 1] == 'c' && s[p + 2] == 'h'
      && s[p + 3] == 'u' && s[p + 4] == 'n' && s[p + 5] == 'k'
  }

  /** `.bin` at `p`. */
  predicate LitBin(s: string, p: nat)
  {
    p + 4 <= |s| && s[p] == '.' && s[p + 1] == 'b' && s[p + 2] == 'i' && s[p + 3] == 'n'
  }

  /** Which alternative matched, with the text of its group. */
  datatype KeyMatch =
    | ChunkXor(chunkDigits: string, keyHex: string)   // groups 1 and 2
    | XorUnderscore(digits: string)                   // group 3
    | XorDigits(digits: string)                       // group 4
    | XorHex(hex: string)                             // group 5

  /** The group texts have the shapes the pattern allows. */
  predicate WellFormed(m: KeyMatch)
  {
    match m
    case ChunkXor(c, x) => |c| >= 1 && AllDigits(c) && |x| >= 2 && AllHexDigits(x)
    case XorUnderscore(d) => 1 <= |d| <= 3 && AllDigits(d)
    case XorDigits(d) => 2 <= |d| <= 3 && AllDigits(d)
    case XorHex(h) => |h| == 2 && AllHexDigits(h)
  }

  /** The first alternative, `_chunk(\d+)_xor([0-9a-fA-F]{2,})`, at position `p`. Backtracking
      does not change what its `\d+` takes: a `_` must follow, which is no digit, so only the
      whole run of digits can succeed (`ChunkRunIsForced`). The hexadecimal repetition ends
      the alternative, so it takes the whole run of hexadecimal digits. */
  function ChunkXorAt(s: string, p: nat): (r: Option<KeyMatch>)
    requires p <= |s|
    ensures r.Some? ==> p < |s| && s[p] == '_' && r.value.ChunkXor?
  {
    if LitChunk(s, p) then
      var d := DigitRun(s, p + 6);
      if d >= 1 && LitXor(s, p + 6 + d) && HexRun(s, p + 10 + d) >= 2 then
        var h := HexRun(s, p + 10 + d);
        Some(ChunkXor(s[p + 6..p + 6 + d], s[p + 10 + d..p + 10 + d + h]))
      else None
    else None
  }

  /** The second alternative, `_xor_(\d{1,3})`: up to three digits, as many as there are. */
  function XorUnderscoreAt(s: string, p: nat): (r: Option<KeyMatch>)
    requires p <= |s|
    ensures r.Some? ==> p < |s| && s[p] == '_' && r.value.XorUnderscore?
  {
    if LitXorUnderscore(s, p) && DigitRun(s, p + 5) >= 1 then
      var n := DigitRun(s, p + 5);
      Some(XorUnderscore(s[p + 5..p + 5 + (if n < 3 then n else 3)]))
    else None
  }

  /** The third alternative, `_xor(\d{2,3})`: two or three digits, as many as there are. */
  function XorDigitsAt(s: string, p: nat): (r: Option<KeyMatch>)
    requires p <= |s|
    ensures r.Some? ==> p < |s| && s[p] == '_' && r.value.XorDigits?
  {
    if LitXor(s, p) && DigitRun(s, p + 4) >= 2 then
      var n := DigitRun(s, p + 4);
      Some(XorDigits(s[p + 4..p + 4 + (if n < 3 then n else 3)]))
    else None
  }

  /** The fourth alternative, `_x([0-9a-fA-F]{2})`: exactly two hexadecimal digits. */
  function XorHexAt(s: string, p: nat): (r: Option<KeyMatch>)
    requires p <= |s|
    ensures r.Some? ==> p < |s| && s[p] == '_' && r.value.XorHex?
  {
    if LitX(s, p) && HexRun(s, p + 2) >= 2 then
      Some(XorHex(s[p + 2..p + 4]))
    else None
  }

  /** The match of the pattern that starts at position `p`, if any: the first alternative
      that succeeds there. */
  function MatchAt(s: string, p: nat): (r: Option<KeyMatch>)
    requires p <= |s|
    ensures r.Some? ==> p < |s| && s[p] == '_'
  {
    if ChunkXorAt(s, p).Some? then ChunkXorAt(s, p)
    else if XorUnderscoreAt(s, p).Some? then XorUnderscoreAt(s, p)
    else if XorDigitsAt(s, p).Some? then XorDigitsAt(s, p)
    else XorHexAt(s, p)
  }

  /** The group texts of a match have the shapes the pattern allows. */
  lemma MatchWellFormed(s: string, p: nat)
    requires p <= |s| && MatchAt(s, p).Some?
    ensures WellFormed(MatchAt(s, p).value)
  {
    if ChunkXorAt(s, p).Some? {
      ChunkXorWellFormed(s, p);
    } else if XorUnderscoreAt(s, p).Some? {
      XorUnderscoreWellFormed(s, p);
    } else if XorDigitsAt(s, p).Some? {
      XorDigitsWellFormed(s, p);
    } else {
      XorHexWellFormed(s, p);
    }
  }

  lemma ChunkXorWellFormed(s: string, p: nat)
    requires p <= |s| && ChunkXorAt(s, p).Some?
    ensures WellFormed(ChunkXorAt(s, p).value)
  {
    var d := DigitRun(s, p + 6);
    DigitRunDigits(s, p + 6);
    HexRunDigits(s, p + 10 + d);
  }

  lemma XorUnderscoreWellFormed(s: string, p: nat)
    requires p <= |s| && XorUnderscoreAt(s, p).Some?
    ensures WellFormed(XorUnderscoreAt(s, p).value)
  {
    var n := DigitRun(s, p + 5);
    DigitRunDigits(s, p + 5);
    var m := XorUnderscoreAt(s, p).value;
    forall j | 0 <= j < |m.digits|
      ensures IsDigit(m.digits[j])
    {
      assert m.digits[j] == s[p + 5 + j] == s[p + 5..p + 5 + n][j];
    }
  }

  lemma XorDigitsWellFormed(s: string, p: nat)
    requires p <= |s| && XorDigitsAt(s, p).Some?
    ensures WellFormed(XorDigitsAt(s, p).value)
  {
    var n := DigitRun(s, p + 4);
    DigitRunDigits(s, p + 4);
    var m := XorDigitsAt(s, p).value;
    forall j | 0 <= j < |m.digits|
      ensures IsDigit(m.digits[j])
    {
      assert m.digits[j] == s[p + 4 + j] == s[p + 4..p + 4 + n][j];
    }
  }

  lemma XorHexWellFormed(s: string, p: nat)
    requires p <= |s| && XorHexAt(s, p).Some?
    ensures WellFormed(XorHexAt(s, p).value)
  {
    HexRunDigits(s, p + 2);
    var m := XorHexAt(s, p).value;
    assert m.hex == s[p + 2..p + 2 + HexRun(s, p + 2)][..2];
  }

  /** The backtracking `\d+` of the first alternative can only succeed with the whole run
      of digits: any shorter run is followed by a digit where `_xor` must start. */
  lemma ChunkRunIsForced(s: string, p: nat, n: nat)
    requires p + 6 + n <= |s| && n >= 1
    requires forall j :: p + 6 <= j < p + 6 + n ==> IsDigit(s[j])
    requires LitXor(s, p + 6 + n)
    ensures DigitRun(s, p + 6) == n
  {
    DigitRunOf(s, p + 6, n);
  }

  /** A run of `n` digits that ends the string or is followed by a non-digit is the
      longest run there. */
  lemma {:induction false} DigitRunOf(s: string, i: nat, n: nat)
    requires i + n <= |s|
    requires forall j :: i <= j < i + n ==> IsDigit(s[j])
    requires i + n == |s| || !IsDigit(s[i + n])
    ensures DigitRun(s, i) == n
    decreases n
  {
    if n > 0 {
      DigitRunOf(s, i + 1, n - 1);
    }
  }

  /** No match of the pattern starts at a position in [lo, hi). */
  ghost predicate NoMatchBetween(s: string, lo: nat, hi: nat)
  {
    forall q :: lo <= q < hi && q <= |s| ==> MatchAt(s, q).None?
  }

  /** A successful search: where the match starts and which alternative matched. */
  datatype Found = Found(pos: nat, m: KeyMatch)

  /** The first start position from `p` on that has a match, with its match. */
  function FirstMatch(ms: seq<Option<KeyMatch>>, p: nat): (r: Option<Found>)
    requires p <= |ms|
    ensures r.Some? ==> p <= r.value.pos < |ms| && ms[r.value.pos] == Some(r.value.m)
    ensures r.Some? ==> forall q :: p <= q < r.value.pos ==> ms[q].None?
    ensures r.None? ==> forall q :: p <= q < |ms| ==> ms[q].None?
    decreases |ms| - p
  {
    if p == |ms| then None
    else if ms[p].Some? then Some(Found(p, ms[p].value))
    else FirstMatch(ms, p + 1)
  }

  /** `re.search(pattern, s)`: the leftmost start position with a match wins. */
  function Search(s: string): (r: Option<Found>)
    ensures r.Some? ==> r.value.pos < |s| && MatchAt(s, r.value.pos) == Some(r.value.m)
    ensures r.Some? ==> NoMatchBetween(s, 0, r.value.pos)
    ensures r.None? ==> NoMatchBetween(s, 0, |s| + 1)
  {
    // The match, if any, at each start position 0 .. |s| that the search tries.
    var ms := seq(|s| + 1, q requires 0 <= q <= |s| => MatchAt(s, q));
    assert forall q :: 0 <= q <= |s| ==> ms[q] == MatchAt(s, q);
    FirstMatch(ms, 0)
  }

  /** A match at `p` with no match before it is the match the search finds. */
  lemma LeftmostMatch(s: string, p: nat)
    requires p <= |s| && MatchAt(s, p).Some?
    requires NoMatchBetween(s, 0, p)
    ensures Search(s) == Some(Found(p, MatchAt(s, p).value))
  {
  }

  /** `extract_xor_info(filename)`: the first alternative gives the chunk size in decimal
      and the key in hexadecimal, the second and third a decimal key, the fourth a
      hexadecimal key, all three with chunk size 4; no match gives (4, 255). */
  function ExtractXorInfo(name: string): (r: (nat, nat))
    ensures Search(name).None? ==> r == (4, 255)
    ensures Search(name).Some? && !Search(name).value.m.ChunkXor? ==> r.0 == 4 && r.1 <= 999
    ensures Search(name).Some? && Search(name).value.m.XorHex? ==> r.1 <= 255
  {
    match Search(name)
    case None => (4, 255)
    case Some(found) =>
      MatchWellFormed(name, found.pos);
      match found.m
      case ChunkXor(c, x) => (DecValue(c), HexValue(x))
      case XorUnderscore(d) => ThreeDigitsBound(d); (4, DecValue(d))
      case XorDigits(d) => ThreeDigitsBound(d); (4, DecValue(d))
      case XorHex(h) => TwoHexDigitsBound(h); (4, HexValue(h))
  }

  lemma ThreeDigitsBound(d: string)
    requires AllDigits(d) && |d| <= 3
    ensures DecValue(d) <= 999
  {
    assert Pow10(|d|) <= 1000 by {
      assert Pow10(3) == 1000;
      if |d| < 3 {
        assert Pow10(2) == 100;
        assert Pow10(|d|) <= 100;
      }
    }
  }

  lemma TwoHexDigitsBound(h: string)
    requires AllHexDigits(h) && |h| == 2
    ensures HexValue(h) <= 255
  {
    var first := h[..1];
    assert first[..0] == [] && first[0] == h[0];
    assert AllHexDigits(first);
    assert HexValue(first) == DigitValue(h[0]) < 16;
    assert h[..|h| - 1] == first;
  }

  /** The name `encode_to_variations` gives a saved variation,
      `f"{stem}_chunk{chunk_size}_xor_{key:03d}.bin"`, with `chunkText` the chunk size as
      written. */
  function VariationFileName(stem: string, chunkText: string, key: nat): string
  {
    stem + ("_chunk" + (chunkText + ("_xor_" + (PadDec(key, 3) + ".bin"))))
  }

  /** A variation name in whose stem no match of the pattern starts, and whose chunk size
      is written in decimal digits, parses back to chunk size 4 and the key it was written
      with: the first match is the `_xor_` alternative just before the key digits. */
  lemma VariationFileNameParses(stem: string, chunkText: string, key: nat)
    requires AllDigits(chunkText) && key < 1000
    requires NoMatchBetween(VariationFileName(stem, chunkText, key), 0, |stem|)
    ensures ExtractXorInfo(VariationFileName(stem, chunkText, key)) == (4, key)
  {
    DecLength(key, 3);
    var kt := PadDec(key, 3);
    SearchFindsKey(stem, chunkText, kt);
    UnderscoreMatchKey(VariationFileName(stem, chunkText, key), |stem| + 6 + |chunkText|, kt);
  }

  /** `IMG_1234` has a `_`, but no match of the pattern starts in it, so the saved name
      `IMG_1234_chunk4_xor_007.bin` gives back key 7. */
  lemma CameraStemParses()
    ensures ExtractXorInfo(VariationFileName("IMG_1234", "4", 7)) == (4, 7)
  {
    var name := VariationFileName("IMG_1234", "4", 7);
    assert name[..9] == "IMG_1234_" by {
      assert name == "IMG_1234" + ("_chunk" + ("4" + ("_xor_" + (PadDec(7, 3) + ".bin"))));
      assert name[8] == '_';
    }
    CameraStemNoMatch(name);
    VariationFileNameParses("IMG_1234", "4", 7);
  }

  /** No match starts in the first eight characters of a name that begins `IMG_1234_`. */
  lemma CameraStemNoMatch(name: string)
    requires |name| >= 9 && name[..9] == "IMG_1234_"
    ensures NoMatchBetween(name, 0, 8)
  {
    assert name[3] == '_' && name[4] == '1';
    forall q | 0 <= q < 8
      ensures MatchAt(name, q).None?
    {
      assert name[q] == "IMG_1234_"[q];
      if q != 3 {
        NoMatchWithoutUnderscore(name, q);
      }
    }
  }

  /** Where the parts of `stem + "_chunk" + c + "_xor" + h` sit at the start of `name`, with
      no hexadecimal digit right after `h`. */
  ghost predicate ChunkNameLayout(name: string, stem: string, c: string, h: string)
  {
    var a := |stem|;
    var p := a + 6 + |c|;
    && |name| >= p + 4 + |h|
    && (forall j :: 0 <= j < a ==> name[j] == stem[j])
    && LitChunk(name, a)
    && (forall j :: 0 <= j < |c| ==> name[a + 6 + j] == c[j])
    && LitXor(name, p)
    && (forall j :: 0 <= j < |h| ==> name[p + 4 + j] == h[j])
    && (|name| == p + 4 + |h| || !IsHexDigit(name[p + 4 + |h|]))
  }

  lemma ChunkNameLayoutOf(stem: string, c: string, h: string, rest: string)
    requires rest == [] || !IsHexDigit(rest[0])
    ensures ChunkNameLayout(stem + ("_chunk" + (c + ("_xor" + (h + rest)))), stem, c, h)
  {
    var name := stem + ("_chunk" + (c + ("_xor" + (h + rest))));
    if rest != [] {
      assert name[|stem| + 10 + |c| + |h|] == rest[0];
    }
  }

  /** The first alternative: in a name `{stem}_chunk{c}_xor{h}...` with decimal digits `c`,
      at least two hexadecimal digits `h` followed by no further one, and no match starting
      in the stem, the chunk size is `c` read in decimal and the key is `h` read in
      hexadecimal. This is the only way to a chunk size other than 4. */
  lemma ChunkXorNameParses(stem: string, c: string, h: string, rest: string)
    requires |c| >= 1 && AllDigits(c) && |h| >= 2 && AllHexDigits(h)
    requires rest == [] || !IsHexDigit(rest[0])
    requires NoMatchBetween(stem + ("_chunk" + (c + ("_xor" + (h + rest)))), 0, |stem|)
    ensures ExtractXorInfo(stem + ("_chunk" + (c + ("_xor" + (h + rest)))))
      == (DecValue(c), HexValue(h))
  {
    var name := stem + ("_chunk" + (c + ("_xor" + (h + rest))));
    ChunkNameLayoutOf(stem, c, h, rest);
    ChunkXorOfLayout(name, stem, c, h);
    LeftmostMatch(name, |stem|);
  }

  lemma ChunkXorOfLayout(name: string, stem: string, c: string, h: string)
    requires ChunkNameLayout(name, stem, c, h)
    requires |c| >= 1 && AllDigits(c) && |h| >= 2 && AllHexDigits(h)
    ensures MatchAt(name, |stem|) == Some(ChunkXor(c, h))
  {
    ChunkDigitsOfLayout(name, stem, c, h);
    ChunkKeyOfLayout(name, stem, c, h);
  }

  lemma ChunkDigitsOfLayout(name: string, stem: string, c: string, h: string)
    requires ChunkNameLayout(name, stem, c, h) && |c| >= 1 && AllDigits(c)
    ensures DigitRun(name, |stem| + 6) == |c|
    ensures name[|stem| + 6..|stem| + 6 + |c|] == c
  {
    var a := |stem|;
    forall j | a + 6 <= j < a + 6 + |c|
      ensures IsDigit(name[j])
    {
      assert name[j] == c[j - a - 6];
    }
    ChunkRunIsForced(name, a, |c|);
  }

  lemma ChunkKeyOfLayout(name: string, stem: string, c: string, h: string)
    requires ChunkNameLayout(name, stem, c, h) && AllHexDigits(h)
    ensures HexRun(name, |stem| + 10 + |c|) == |h|
    ensures name[|stem| + 10 + |c|..|stem| + 10 + |c| + |h|] == h
  {
    var p := |stem| + 6 + |c|;
    forall j | p + 4 <= j < p + 4 + |h|
      ensures IsHexDigit(name[j])
    {
      assert name[j] == h[j - p - 4];
    }
    HexRunOf(name, p + 4, |h|);
  }

  /** A run of `n` hexadecimal digits that ends the string or is followed by another
      character is the longest run there. */
  lemma {:induction false} HexRunOf(s: string, i: nat, n: nat)
    requires i + n <= |s|
    requires forall j :: i <= j < i + n ==> IsHexDigit(s[j])
    requires i + n == |s| || !IsHexDigit(s[i + n])
    ensures HexRun(s, i) == n
    decreases n
  {
    if n > 0 {
      HexRunOf(s, i + 1, n - 1);
    }
  }

  /** `a_chunk0_xorff` reads as chunk size 0 and key 255. */
  lemma ChunkZeroName()
    ensures ExtractXorInfo("a_chunk0_xorff") == (0, 255)
  {
    assert "a_chunk0_xorff" == "a" + ("_chunk" + ("0" + ("_xor" + ("ff" + ""))));
    ChunkXorNameParses("a", "0", "ff", "");
    assert DecValue("0") == 0 by {
      assert "0"[..0] == "";
    }
    assert HexValue("ff") == 255 by {
      assert "ff"[..1] == "f" && "f"[..0] == "";
    }
  }

  /** The third alternative: `a_xor42` reads as chunk size 4 and key 42, since no `_`
      follows `_xor` for the second. */
  lemma XorDigitsName()
    ensures ExtractXorInfo("a_xor42") == (4, 42)
  {
    var name := "a_xor42";
    assert name[2] == 'x' && name[5] == '4' && name[6] == '2';
    assert ChunkXorAt(name, 1).None? && XorUnderscoreAt(name, 1).None?;
    assert DigitRun(name, 5) == 2 by {
      assert DigitRun(name, 7) == 0;
    }
    assert name[5..7] == "42";
    assert MatchAt(name, 1) == Some(XorDigits("42"));
    LeftmostMatch(name, 1);
    assert DecValue("42") == 42 by {
      assert "42"[..1] == "4" && "4"[..0] == "";
    }
  }

  /** A stem that itself holds `_x` and two hexadecimal digits hides the key: the search
      stops inside the stem, and `img_xff_chunk4_xor_007.bin` is read as key 255. */
  lemma HexStemHidesKey()
    ensures ExtractXorInfo(VariationFileName("img_xff", "4", 7)) == (4, 255)
  {
    var name := VariationFileName("img_xff", "4", 7);
    assert name[..8] == "img_xff_" by {
      assert name == "img_xff" + ("_chunk" + ("4" + ("_xor_" + (PadDec(7, 3) + ".bin"))));
      assert name[7] == '_';
    }
    HexStemMatch(name);
  }

  /** The search in a name that starts with `img_xff_` stops at the `_x` of the stem. */
  lemma HexStemMatch(name: string)
    requires |name| >= 8 && name[..8] == "img_xff_"
    ensures ExtractXorInfo(name) == (4, 255)
  {
    assert name[0] == 'i' && name[1] == 'm' && name[2] == 'g' && name[3] == '_';
    assert name[4] == 'x' && name[5] == 'f' && name[6] == 'f' && name[7] == '_';
    forall q | 0 <= q < 3
      ensures MatchAt(name, q).None?
    {
      NoMatchWithoutUnderscore(name, q);
    }
    assert HexRun(name, 7) == 0;
    assert HexRun(name, 5) == 2;
    assert name[5..7] == "ff";
    assert MatchAt(name, 3) == Some(XorHex("ff"));
    LeftmostMatch(name, 3);
    assert HexValue("ff") == 255 by {
      assert "ff"[..1] == "f" && "f"[..0] == "";
    }
  }

  /** A stem that itself holds the first alternative decides the chunk size as well:
      `a_chunk0_xorff_chunk4_xor_007.bin` is read as chunk size 0 and key 255. */
  lemma ChunkStemHidesKey()
    ensures ExtractXorInfo(VariationFileName("a_chunk0_xorff", "4", 7)) == (0, 255)
  {
    var name := VariationFileName("a_chunk0_xorff", "4", 7);
    assert name[..15] == "a_chunk0_xorff_" by {
      assert name == "a_chunk0_xorff" + ("_chunk" + ("4" + ("_xor_" + (PadDec(7, 3) + ".bin"))));
      assert name[14] == '_';
    }
    ChunkStemMatch(name);
  }

  /** The search in a name that starts with `a_chunk0_xorff_` stops at the `_chunk` of the stem. */
  lemma ChunkStemMatch(name: string)
    requires |name| >= 15 && name[..15] == "a_chunk0_xorff_"
    ensures ExtractXorInfo(name) == (0, 255)
  {
    forall j | 0 <= j < 15
      ensures name[j] == "a_chunk0_xorff_"[j]
    {
    }
    assert ChunkNameLayout(name, "a", "0", "ff");
    ChunkXorOfLayout(name, "a", "0", "ff");
    NoMatchWithoutUnderscore(name, 0);
    LeftmostMatch(name, 1);
    assert DecValue("0") == 0 by {
      assert "0"[..0] == "";
    }
    assert HexValue("ff") == 255 by {
      assert "ff"[..1] == "f" && "f"[..0] == "";
    }
  }

  /** The key where `encode_to_variations` writes it: the three digits between a final
      `_xor_` and `.bin`. Any other name is read by the search as before. */
  function ExtractSavedKey(name: string): (nat, nat)
  {
    if SavedKeyAtEnd(name) then (4, DecValue(SavedKeyText(name)))
    else ExtractXorInfo(name)
  }

  /** The name ends in `_xor_`, three decimal digits and `.bin`. */
  predicate SavedKeyAtEnd(name: string)
  {
    var n := |name|;
    n >= 12 && LitXorUnderscore(name, n - 12) && AllDigits(SavedKeyText(name)) && LitBin(name, n - 4)
  }

  /** The three characters before a final `.bin`. */
  function SavedKeyText(name: string): string
    requires |name| >= 7
  {
    name[|name| - 7..|name| - 4]
  }

  /** Every saved variation name, whatever its stem, gives back the key it was written with. */
  lemma SavedKeyParses(stem: string, chunkText: string, key: nat)
    requires key < 1000
    ensures ExtractSavedKey(VariationFileName(stem, chunkText, key)) == (4, key)
  {
    DecLength(key, 3);
    var kt := PadDec(key, 3);
    VariationNameLayout(stem, chunkText, kt);
    SavedKeyOfLayout(VariationFileName(stem, chunkText, key), stem, chunkText, kt);
  }

  lemma SavedKeyOfLayout(name: string, stem: string, ct: string, kt: string)
    requires NameLayout(name, stem, ct, kt) && |kt| == 3 && AllDigits(kt)
    ensures ExtractSavedKey(name) == (4, DecValue(kt))
  {
    var n := |name|;
    var p := |stem| + 6 + |ct|;
    assert n - 12 == p && n - 7 == p + 5 && n - 4 == p + 8;
    assert SavedKeyText(name) == kt by {
      forall j | 0 <= j < 3
        ensures name[p + 5 + j] == kt[j]
      {
      }
    }
    assert SavedKeyAtEnd(name);
  }

  /** Where the parts of `stem + "_chunk" + ct + "_xor_" + kt + ".bin"` sit in `name`. */
  ghost predicate NameLayout(name: string, stem: string, ct: string, kt: string)
  {
    var a := |stem|;
    var p := a + 6 + |ct|;
    && |name| == p + 9 + |kt|
    && (forall j :: 0 <= j < a ==> name[j] == stem[j])
    && LitChunk(name, a)
    && (forall j :: 0 <= j < |ct| ==> name[a + 6 + j] == ct[j])
    && LitXorUnderscore(name, p)
    && (forall j :: 0 <= j < |kt| ==> name[p + 5 + j] == kt[j])
    && LitBin(name, p + 5 + |kt|)
  }

  lemma VariationNameLayout(stem: string, ct: string, kt: string)
    ensures NameLayout(stem + ("_chunk" + (ct + ("_xor_" + (kt + ".bin")))), stem, ct, kt)
  {
  }

  /** The search over a variation name without a match in its stem stops at the `_xor_`
      before the key digits `kt`. */
  lemma SearchFindsKey(stem: string, ct: string, kt: string)
    requires AllDigits(ct) && AllDigits(kt) && |kt| == 3
    requires NoMatchBetween(stem + ("_chunk" + (ct + ("_xor_" + (kt + ".bin")))), 0, |stem|)
    ensures Search(stem + ("_chunk" + (ct + ("_xor_" + (kt + ".bin")))))
      == Some(Found(|stem| + 6 + |ct|, XorUnderscore(kt)))
  {
    var name := stem + ("_chunk" + (ct + ("_xor_" + (kt + ".bin"))));
    VariationNameLayout(stem, ct, kt);
    NoMatchBeforeKey(name, stem, ct, kt);
    MatchInTail(name, stem, ct, kt);
    LeftmostMatch(name, |stem| + 6 + |ct|);
  }

  /** When no match starts in the stem, none starts anywhere in the `_chunk<digits>` part
      after it either. */
  lemma NoMatchBeforeKey(name: string, stem: string, ct: string, kt: string)
    requires NameLayout(name, stem, ct, kt) && AllDigits(ct)
    requires NoMatchBetween(name, 0, |stem|)
    ensures NoMatchBetween(name, 0, |stem| + 6 + |ct|)
  {
    var a := |stem|;
    forall q | a <= q < a + 6 + |ct|
      ensures MatchAt(name, q).None?
    {
      if q == a {
        NoMatchAtChunk(name, stem, ct, kt);
      } else if q < a + 6 {
        NoMatchWithoutUnderscore(name, q);
      } else {
        assert name[q] == ct[q - a - 6];
        NoMatchWithoutUnderscore(name, q);
      }
    }
  }

  /** At `_chunk<digits>_xor_` the first alternative fails (no hexadecimal digit follows
      `_xor`) and the others fail on the `c`. */
  lemma NoMatchAtChunk(name: string, stem: string, ct: string, kt: string)
    requires NameLayout(name, stem, ct, kt) && AllDigits(ct)
    ensures MatchAt(name, |stem|).None?
  {
    var a := |stem|;
    forall j | a + 6 <= j < a + 6 + |ct|
      ensures IsDigit(name[j])
    {
      assert name[j] == ct[j - a - 6];
    }
    DigitRunOf(name, a + 6, |ct|);
    assert HexRun(name, a + 10 + |ct|) == 0;
    assert ChunkXorAt(name, a).None?;
    assert name[a + 1] == 'c';
    assert XorUnderscoreAt(name, a).None? && XorDigitsAt(name, a).None? && XorHexAt(name, a).None?;
  }

  /** At `_xor_<three digits>.` the second alternative matches the three digits. */
  lemma MatchInTail(name: string, stem: string, ct: string, kt: string)
    requires NameLayout(name, stem, ct, kt) && |kt| == 3 && AllDigits(kt)
    ensures MatchAt(name, |stem| + 6 + |ct|) == Some(XorUnderscore(kt))
  {
    var p := |stem| + 6 + |ct|;
    forall j | p + 5 <= j < p + 8
      ensures IsDigit(name[j])
    {
      assert name[j] == kt[j - p - 5];
    }
    DigitRunOf(name, p + 5, 3);
    assert name[p + 5..p + 8] == kt;
  }

  lemma UnderscoreMatchKey(name: string, p: nat, d: string)
    requires Search(name) == Some(Found(p, XorUnderscore(d)))
    ensures AllDigits(d) && ExtractXorInfo(name) == (4, DecValue(d))
  {
    assert MatchAt(name, p) == Some(XorUnderscore(d));
    MatchWellFormed(name, p);
  }

  /** Every alternative starts with `_`. */
  lemma NoMatchWithoutUnderscore(s: string, q: nat)
    requires q < |s| && s[q] != '_'
    ensures MatchAt(s, q).None?
  {
  }
}
