/** The set-score reader of the event details page
    (frontend/src/app/pages/EventDetails.tsx): a stored match score such as
    `"11-7, 9-11"` or `"7 -9"` split into tokens, each read as one set from the
    player's side. A bare number `v` is the loser's points of a set of
    minimum length, won by the player when `v` is non-negative. */
module ScoreTokens {
  import opened Wrappers
  import opened Text
  import opened Parse
  import opened Seqs

  /** Scores are JavaScript numbers; a bare fractional token keeps its
      fraction, so they are exact rationals here. */
  datatype SetScore = SetScore(playerScore: real, opponentScore: real)

  // ------------------------------------------------------------- splitting

  /** The characters of the separator class `[\s,]`. */
  predicate IsSeparator(c: char) {
    IsSpace(c) || c == ','
  }

  predicate NoSeparator(t: string) {
    forall k :: 0 <= k < |t| ==> !IsSeparator(t[k])
  }

  predicate AllSeparators(t: string) {
    forall k :: 0 <= k < |t| ==> IsSeparator(t[k])
  }

  /** Length of the token at the front of `s`. */
  function FieldLength(s: string): (n: nat)
    ensures n <= |s|
    ensures forall k :: 0 <= k < n ==> !IsSeparator(s[k])
    ensures n < |s| ==> IsSeparator(s[n])
  {
    if |s| == 0 || IsSeparator(s[0]) then 0 else 1 + FieldLength(s[1..])
  }

  /** Length of the separator run at the front of `s`. */
  function SeparatorRun(s: string): (n: nat)
    ensures n <= |s|
    ensures forall k :: 0 <= k < n ==> IsSeparator(s[k])
    ensures n < |s| ==> !IsSeparator(s[n])
  {
    if |s| == 0 || !IsSeparator(s[0]) then 0 else 1 + SeparatorRun(s[1..])
  }

  /** `s.split(/[\s,]+/)`: the text between maximal separator runs. A leading
      or trailing run yields an empty first or last token, and the empty
      string is one empty token. */
  function Split(s: string): (tokens: seq<string>)
    ensures |tokens| >= 1
    ensures forall i :: 0 <= i < |tokens| ==> NoSeparator(tokens[i])
    ensures NoSeparator(s) ==> tokens == [s]
    decreases |s|
  {
    var n := FieldLength(s);
    if n == |s| then [s]
    else
      var rest := s[n..];
      var m := SeparatorRun(rest);
      assert m >= 1;
      [s[..n]] + Split(rest[m..])
  }

  /** The tokens written out with `sep` between neighbours. */
  function JoinWith(tokens: seq<string>, sep: string): string
    requires |tokens| >= 1
  {
    if |tokens| == 1 then tokens[0] else tokens[0] + sep + JoinWith(tokens[1..], sep)
  }

  /** Splitting undoes joining: non-empty tokens without separators, joined
      by any non-empty separator run, split back into themselves. */
  lemma {:induction false} SplitJoin(tokens: seq<string>, sep: string)
    requires |tokens| >= 1 && |sep| >= 1 && AllSeparators(sep)
    requires forall i :: 0 <= i < |tokens| ==> |tokens[i]| > 0 && NoSeparator(tokens[i])
    ensures Split(JoinWith(tokens, sep)) == tokens
  {
    if |tokens| > 1 {
      var tail := JoinWith(tokens[1..], sep);
      JoinStartsWithFirst(tokens[1..], sep);
      SplitFront(tokens[0], sep, tail);
      SplitJoin(tokens[1..], sep);
    }
  }

  /** A token, a separator run, then text that starts with a token: the
      first token comes off and splitting goes on after the run. */
  lemma SplitFront(head: string, sep: string, tail: string)
    requires NoSeparator(head) && |sep| >= 1 && AllSeparators(sep)
    requires |tail| > 0 && !IsSeparator(tail[0])
    ensures Split(head + sep + tail) == [head] + Split(tail)
  {
    var rest := sep + tail;
    var s := head + rest;
    assert head + sep + tail == s;
    FieldLengthOf(head, rest);
    SeparatorRunOf(sep, tail);
    assert s[|head|..] == rest && s[..|head|] == head;
    assert rest[|sep|..] == tail;
    SplitStep(s);
  }

  /** One step of splitting text with a separator after its first token. */
  lemma SplitStep(s: string)
    requires FieldLength(s) < |s|
    ensures var n := FieldLength(s);
      Split(s) == [s[..n]] + Split(s[n..][SeparatorRun(s[n..])..])
  {
  }

  lemma FieldLengthOf(head: string, rest: string)
    requires NoSeparator(head) && |rest| > 0 && IsSeparator(rest[0])
    ensures FieldLength(head + rest) == |head|
  {
    var s := head + rest;
    assert forall k :: 0 <= k < |head| ==> s[k] == head[k];
    assert s[|head|] == rest[0];
  }

  lemma SeparatorRunOf(sep: string, tail: string)
    requires AllSeparators(sep) && |tail| > 0 && !IsSeparator(tail[0])
    ensures SeparatorRun(sep + tail) == |sep|
  {
    var s := sep + tail;
    assert forall k :: 0 <= k < |sep| ==> s[k] == sep[k];
    assert s[|sep|] == tail[0];
  }

  lemma JoinStartsWithFirst(tokens: seq<string>, sep: string)
    requires |tokens| >= 1 && |tokens[0]| > 0
    ensures |JoinWith(tokens, sep)| > 0 && JoinWith(tokens, sep)[0] == tokens[0][0]
  {
  }

  // ---------------------------------------------------------------- tokens

  /** Length of the digit run at the front of `t`. */
  function DigitRun(t: string): (n: nat)
    ensures n <= |t|
    ensures forall k :: 0 <= k < n ==> IsDigit(t[k])
    ensures n < |t| ==> !IsDigit(t[n])
  {
    if |t| == 0 || !IsDigit(t[0]) then 0 else 1 + DigitRun(t[1..])
  }

  /** The pattern `^\d+-\d+$`: digits, one dash, digits. */
  predicate IsPair(t: string) {
    var k := DigitRun(t);
    0 < k && k + 1 < |t| && t[k] == '-' && AllDigits(t[k + 1..])
  }

  /** The two sides of a pair token. */
  function PairLeft(t: string): (left: string)
    requires IsPair(t)
    ensures |left| > 0 && AllDigits(left)
  {
    t[..DigitRun(t)]
  }

  function PairRight(t: string): (right: string)
    requires IsPair(t)
    ensures |right| > 0 && AllDigits(right)
  {
    t[DigitRun(t) + 1..]
  }

  /** The value of a `Number` result that is a number. */
  function ValueOf(n: Numeric): real
    requires n.Num?
  {
    n.mantissa as real / Pow10(n.scale) as real
  }

  function Abs(x: real): real {
    if x < 0.0 then -x else x
  }

  function MaxReal(a: real, b: real): real {
    if a >= b then a else b
  }

  /** The fewest points that win a set. */
  const GamePoint: real := 11.0

  /** `w` is the score that wins a set against `loser` points: at least
      11, at least two clear, and no more than the larger of the two. */
  predicate WinningScore(w: real, loser: real) {
    w >= GamePoint && w >= loser + 2.0 && (w == GamePoint || w == loser + 2.0)
  }

  /** `parseScoreToken(token)`: nothing for the empty token; a pair token is
      (player, opponent) as written; any other token is read as a number,
      nothing when it is not one, and otherwise its magnitude is the loser's
      points and the winner has 11 or two more than that, the player
      winning exactly when the number is not negative. */
  function ParseScoreToken(token: string): (r: Option<SetScore>)
    ensures token == "" ==> r.None?
    ensures IsPair(token) ==>
      r == Some(SetScore(DigitsValue(PairLeft(token)) as real, DigitsValue(PairRight(token)) as real))
    ensures token != "" && !IsPair(token) ==> (r.None? <==> NumberValue(token).NaN?)
    ensures token != "" && !IsPair(token) && r.Some? ==>
      var v := ValueOf(NumberValue(token));
      (r.value.playerScore == Abs(v) || r.value.opponentScore == Abs(v)) &&
      (r.value.playerScore > r.value.opponentScore <==> v >= 0.0) &&
      MaxReal(r.value.playerScore, r.value.opponentScore) >= GamePoint &&
      Abs(r.value.playerScore - r.value.opponentScore) >= 2.0
    // the loser's side is the magnitude; the winner's is the least winning score above it
    ensures token != "" && !IsPair(token) && r.Some? ==>
      var v := ValueOf(NumberValue(token));
      (v >= 0.0 ==> r.value.opponentScore == Abs(v) && WinningScore(r.value.playerScore, Abs(v))) &&
      (v < 0.0 ==> r.value.playerScore == Abs(v) && WinningScore(r.value.opponentScore, Abs(v)))
  {
    if token == "" then None
    else if IsPair(token) then
      Some(SetScore(DigitsValue(PairLeft(token)) as real, DigitsValue(PairRight(token)) as real))
    else
      match NumberValue(token)
      case NaN => None
      case Num(m, k) =>
        var value := ValueOf(Num(m, k));
        var loser := Abs(value);
        var winner := MaxReal(GamePoint, loser + 2.0);
        Some(if value >= 0.0 then SetScore(winner, loser) else SetScore(loser, winner))
  }

  /** A set written as `a-b` reads back as `a` for the player and `b` for
      the opponent. */
  lemma PairRoundTrip(a: nat, b: nat)
    ensures ParseScoreToken(NatToString(a) + "-" + NatToString(b)) == Some(SetScore(a as real, b as real))
  {
    var left := NatToString(a);
    var right := NatToString(b);
    var t := left + "-" + right;
    assert DigitRun(t) == |left| by {
      assert forall k :: 0 <= k < |left| ==> t[k] == left[k];
      assert t[|left|] == '-';
    }
    assert t[..|left|] == left;
    assert t[|left| + 1..] == right;
    NatToStringRoundTrip(a);
    NatToStringRoundTrip(b);
  }

  /** A bare integer `v` reads as the closest set it can stand for: the
      player wins with 11 (or `v + 2`) over `v` when `v >= 0`, and loses by
      the same margin otherwise. */
  lemma NumberRoundTrip(v: int)
    ensures v >= 0 ==> ParseScoreToken(IntToString(v)) == Some(SetScore(MaxReal(GamePoint, v as real + 2.0), v as real))
    ensures v < 0 ==> ParseScoreToken(IntToString(v)) == Some(SetScore(-v as real, MaxReal(GamePoint, -v as real + 2.0)))
  {
    var t := IntToString(v);
    NumberOfRendering(v);
    RenderingSign(v);
    assert !IsPair(t) by {
      if v >= 0 {
        assert AllDigits(t);
        assert DigitRun(t) == |t|;
      } else {
        assert DigitRun(t) == 0;
      }
    }
    assert ValueOf(Num(v, 0)) == v as real;
  }

  // ------------------------------------------------------------- the score

  /** `parseSetScores(score)`: the tokens that read as a set, in order. */
  function ParseSetScores(score: string): (r: seq<SetScore>)
    ensures |r| <= |Split(score)|
    ensures forall j :: 0 <= j < |r| ==> exists i :: 0 <= i < |Split(score)| && ParseScoreToken(Split(score)[i]) == Some(r[j])
    ensures forall i :: 0 <= i < |Split(score)| && ParseScoreToken(Split(score)[i]).Some? ==> ParseScoreToken(Split(score)[i]).value in r
  {
    FilterMap(ParseScoreToken, Split(score))
  }

  /** The sets of a score read token by token, in order: the first token
      contributes its set, or nothing when it reads as no set, in front of
      the sets of the remaining tokens. Every token is read, whatever its
      form, so a set appears once per token that reads as it. */
  lemma {:induction false} SetScoresByToken(tokens: seq<string>, sep: string)
    requires |tokens| >= 1 && |sep| >= 1 && AllSeparators(sep)
    requires forall i :: 0 <= i < |tokens| ==> |tokens[i]| > 0 && NoSeparator(tokens[i])
    ensures ParseSetScores(JoinWith(tokens, sep)) ==
      (if ParseScoreToken(tokens[0]).Some? then [ParseScoreToken(tokens[0]).value] else []) +
      (if |tokens| == 1 then [] else ParseSetScores(JoinWith(tokens[1..], sep)))
  {
    SplitJoin(tokens, sep);
    FilterMapSingle(ParseScoreToken, tokens[0]);
    if |tokens| > 1 {
      SplitJoin(tokens[1..], sep);
      assert tokens == [tokens[0]] + tokens[1..];
      FilterMapAppend(ParseScoreToken, [tokens[0]], tokens[1..]);
    } else {
      assert tokens == [tokens[0]];
    }
  }

  /** The rendering of one set as a pair token. */
  function PairToken(points: (nat, nat)): string {
    NatToString(points.0) + "-" + NatToString(points.1)
  }

  function PairTokens(sets: seq<(nat, nat)>): (tokens: seq<string>)
    ensures |tokens| == |sets|
    ensures forall i :: 0 <= i < |sets| ==> tokens[i] == PairToken(sets[i])
  {
    seq(|sets|, i requires 0 <= i < |sets| => PairToken(sets[i]))
  }

  /** A score written as pair tokens separated by commas or white space reads
      back set by set, in order. */
  lemma SetScoresRoundTrip(sets: seq<(nat, nat)>, sep: string)
    requires |sets| >= 1 && |sep| >= 1 && AllSeparators(sep)
    ensures var r := ParseSetScores(JoinWith(PairTokens(sets), sep));
      |r| == |sets| && forall i :: 0 <= i < |sets| ==> r[i] == SetScore(sets[i].0 as real, sets[i].1 as real)
  {
    var tokens := PairTokens(sets);
    forall i | 0 <= i < |tokens|
      ensures |tokens[i]| > 0 && NoSeparator(tokens[i])
      ensures ParseScoreToken(tokens[i]) == Some(SetScore(sets[i].0 as real, sets[i].1 as real))
    {
      var left := NatToString(sets[i].0);
      var right := NatToString(sets[i].1);
      assert tokens[i] == left + "-" + right;
      forall k | 0 <= k < |tokens[i]|
        ensures !IsSeparator(tokens[i][k])
      {
        if k < |left| {
          assert IsDigit(left[k]);
        } else if k > |left| {
          assert IsDigit(right[k - |left| - 1]);
        }
      }
      PairRoundTrip(sets[i].0, sets[i].1);
    }
    SplitJoin(tokens, sep);
    FilterMapTotal(ParseScoreToken, tokens);
  }
}
