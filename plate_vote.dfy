/**
  The OCR ensemble of `recognize_plate_trocr_ensemble` in backend/model/LPD2.py:
  each OCR reading is cleaned and collected, then the readings are merged by a
  per-position majority vote. The OCR calls and the random augmentation that
  precede each reading are outside this model; the readings are given.
 */
module PlateVote {
  import opened PlateText

  /** `chars = [p[i] for p in preds if len(p) > i]`, in the order of `preds`. */
  function Column(preds: seq<string>, i: nat): (col: seq<char>)
    ensures |col| <= |preds|
  {
    if preds == [] then []
    else (if i < |preds[0]| then [preds[0][i]] else []) + Column(preds[1..], i)
  }

  /** A character is in column `i` exactly when some prediction longer than `i` has it at `i`. */
  lemma {:induction false} ColumnMembers(preds: seq<string>, i: nat, c: char)
    ensures c in Column(preds, i) <==>
              exists k :: 0 <= k < |preds| && i < |preds[k]| && preds[k][i] == c
  {
    if preds != [] {
      ColumnMembers(preds[1..], i, c);
      if exists k :: 0 <= k < |preds| - 1 && i < |preds[1..][k]| && preds[1..][k][i] == c {
        var k :| 0 <= k < |preds| - 1 && i < |preds[1..][k]| && preds[1..][k][i] == c;
        assert preds[k + 1] == preds[1..][k];
      }
      if exists k :: 0 <= k < |preds| && i < |preds[k]| && preds[k][i] == c {
        var k :| 0 <= k < |preds| && i < |preds[k]| && preds[k][i] == c;
        if k > 0 {
          assert preds[1..][k - 1] == preds[k];
        }
      }
    }
  }

  /** `max(len(p) for p in preds)`; Python's `max` has no value on an empty list. */
  function MaxLen(preds: seq<string>): (m: nat)
    requires preds != []
    ensures forall k :: 0 <= k < |preds| ==> |preds[k]| <= m
    ensures exists k :: 0 <= k < |preds| && |preds[k]| == m
  {
    if |preds| == 1 then |preds[0]|
    else
      var rest := MaxLen(preds[1..]);
      assert forall k :: 1 <= k < |preds| ==> preds[k] == preds[1..][k - 1];
      if |preds[0]| >= rest then |preds[0]| else rest
  }

  /** Every position below the longest prediction's length has a non-empty column. */
  lemma ColumnNonEmpty(preds: seq<string>, i: nat)
    requires preds != [] && i < MaxLen(preds)
    ensures Column(preds, i) != []
  {
    var k :| 0 <= k < |preds| && |preds[k]| == MaxLen(preds);
    ColumnMembers(preds, i, preds[k][i]);
  }

  /** `chars.count(c)`. */
  function Count(chars: seq<char>, c: char): nat {
    multiset(chars)[c]
  }

  /** `c` is one of the characters `max(set(chars), key=chars.count)` may return. */
  predicate IsMode(chars: seq<char>, c: char) {
    c in chars && forall d :: d in chars ==> Count(chars, d) <= Count(chars, c)
  }

  /** The candidate in `cands` that occurs most often in `chars`, which shows a mode exists. */
  function MostFrequent(cands: seq<char>, chars: seq<char>): (c: char)
    requires cands != []
    ensures c in cands
    ensures forall d :: d in cands ==> Count(chars, d) <= Count(chars, c)
  {
    if |cands| == 1 then cands[0]
    else
      var rest := MostFrequent(cands[1..], chars);
      assert forall d :: d in cands ==> d == cands[0] || d in cands[1..];
      if Count(chars, cands[0]) >= Count(chars, rest) then cands[0] else rest
  }

  /** Two different characters together occur at most `|chars|` times. */
  lemma {:induction false} TwoCountsBound(chars: seq<char>, c: char, d: char)
    requires c != d
    ensures Count(chars, c) + Count(chars, d) <= |chars|
  {
    if chars != [] {
      TwoCountsBound(chars[1..], c, d);
      assert chars == [chars[0]] + chars[1..];
      assert multiset(chars) == multiset{chars[0]} + multiset(chars[1..]);
    }
  }

  /** What a vote over `preds` may return: "" for no predictions, otherwise one
      character per position of the longest prediction, each a most frequent
      character of its column (which one on a tie is left open). */
  predicate IsVoteOf(preds: seq<string>, r: string) {
    && (preds == [] ==> r == [])
    && (preds != [] ==> |r| == MaxLen(preds))
    && forall i :: 0 <= i < |r| ==> IsMode(Column(preds, i), r[i])
  }

  /** The per-character majority vote (LPD2.py lines 51-60). The tie between
      equally frequent characters is resolved by the iteration order of a
      Python `set`, modelled here as an arbitrary choice among the modes. */
  method MajorityVote(preds: seq<string>) returns (result: string)
    ensures IsVoteOf(preds, result)
  {
    if preds == [] {
      return "";
    }
    var maxLen := MaxLen(preds);
    result := "";
    for i := 0 to maxLen
      invariant |result| == i
      invariant forall j :: 0 <= j < i ==> IsMode(Column(preds, j), result[j])
    {
      var chars := Column(preds, i);
      ColumnNonEmpty(preds, i);
      if chars != [] {
        ghost var some := MostFrequent(chars, chars);
        assert IsMode(chars, some);
        var c :| IsMode(chars, c);
        result := result + [c];
      }
    }
  }

  /** The readings after `re.sub(r'[^A-Za-z0-9]', '', text.strip())`; the
      `strip()` removes only characters that cleaning removes anyway. */
  function CleanAll(texts: seq<string>): (preds: seq<string>)
    ensures |preds| == |texts|
    ensures forall k :: 0 <= k < |texts| ==> preds[k] == CleanPlateString(texts[k])
  {
    seq(|texts|, k requires 0 <= k < |texts| => CleanPlateString(texts[k]))
  }

  /** `recognize_plate_trocr_ensemble`, given the OCR readings of the `n`
      augmented crops: collect the cleaned readings, then vote. */
  method RecognizeEnsemble(ocrTexts: seq<string>) returns (plate: string)
    ensures IsVoteOf(CleanAll(ocrTexts), plate)
    ensures AllAlnum(plate)
  {
    var preds: seq<string> := [];
    for k := 0 to |ocrTexts|
      invariant preds == CleanAll(ocrTexts[..k])
    {
      preds := preds + [CleanPlateString(ocrTexts[k])];
    }
    assert ocrTexts[..|ocrTexts|] == ocrTexts;
    plate := MajorityVote(preds);
    VoteKeepsAlnum(preds, plate);
  }

  /** Each voted character stands at the same position in some prediction longer than that position. */
  lemma VoteCharacterOrigin(preds: seq<string>, r: string, i: nat)
    requires IsVoteOf(preds, r) && i < |r|
    ensures exists k :: 0 <= k < |preds| && i < |preds[k]| && preds[k][i] == r[i]
  {
    ColumnMembers(preds, i, r[i]);
  }

  /** A vote over alphanumeric predictions is alphanumeric. */
  lemma VoteKeepsAlnum(preds: seq<string>, r: string)
    requires IsVoteOf(preds, r)
    requires forall k :: 0 <= k < |preds| ==> AllAlnum(preds[k])
    ensures AllAlnum(r)
  {
    forall i | 0 <= i < |r|
      ensures IsAsciiAlnum(r[i])
    {
      VoteCharacterOrigin(preds, r, i);
    }
  }

  /** A character held by more than half of a column wins that column. */
  lemma StrictMajorityWins(preds: seq<string>, r: string, i: nat, c: char)
    requires IsVoteOf(preds, r) && i < |r|
    requires 2 * Count(Column(preds, i), c) > |Column(preds, i)|
    ensures r[i] == c
  {
    var col := Column(preds, i);
    if r[i] != c {
      assert Count(col, r[i]) >= Count(col, c) by {
        assert c in multiset(col);
      }
      TwoCountsBound(col, c, r[i]);
    }
  }

  /** When every reading agrees, the vote returns that reading. */
  lemma UnanimousVote(preds: seq<string>, s: string, r: string)
    requires preds != []
    requires forall k :: 0 <= k < |preds| ==> preds[k] == s
    requires IsVoteOf(preds, r)
    ensures r == s
  {
    forall i | 0 <= i < |r|
      ensures r[i] == s[i]
    {
      ColumnMembers(preds, i, r[i]);
    }
  }
}
