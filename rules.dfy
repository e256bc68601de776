/**
 * The pure rules of the board: a line of rooms 1..49, a six-sided die, the
 * `ROOM_<digits>` QR token, the case-insensitive answer comparison, the
 * +100 / -100 scoring with a two-room setback, and the round-robin turn index.
 */
module Rules {
  import opened Collections

  const FirstRoom := 1
  const FinalRoom := 49
  const PenaltyRooms := 2
  const AnswerPoints := 100
  const DiceFaces := 6

  // ---------------------------------------------------------------------------
  // Dice and winning
  // ---------------------------------------------------------------------------

  /** The room reached by rolling `roll` from `position`: never past the final room. */
  function ApplyRoll(position: int, roll: int): (r: int)
    ensures r <= FinalRoom
    ensures r == position + roll || r == FinalRoom
    ensures r == FinalRoom <==> position + roll >= FinalRoom
    ensures position <= FinalRoom && 0 <= roll ==> position <= r <= position + roll
  {
    if position + roll < FinalRoom then position + roll else FinalRoom
  }

  /** The winner test applied to the room a roll lands on. */
  predicate IsWin(position: int)
  {
    position >= FinalRoom
  }

  /** After a clamped roll, "at or past the final room" is exactly "in the final room". */
  lemma WinIsLandingOnFinalRoom(position: int, roll: int)
    ensures IsWin(ApplyRoll(position, roll)) <==> ApplyRoll(position, roll) == FinalRoom
    ensures IsWin(ApplyRoll(position, roll)) <==> position + roll >= FinalRoom
  {
  }

  // ---------------------------------------------------------------------------
  // Answer scoring
  // ---------------------------------------------------------------------------

  function ScoreChange(correct: bool): (r: int)
    ensures r == AnswerPoints || r == -AnswerPoints
    ensures r > 0 <==> correct
  {
    if correct then AnswerPoints else -AnswerPoints
  }

  /** The new score: the change applied, but never below zero. */
  function ScoreAfter(score: int, change: int): (r: nat)
    ensures r >= score + change
    ensures r == score + change || r == 0
    ensures r == 0 <==> score + change <= 0
  {
    if score + change < 0 then 0 else score + change
  }

  /** A correct answer keeps the room; a wrong one moves back two rooms, not below the first. */
  function PositionAfter(position: int, correct: bool): (r: int)
    ensures correct ==> r == position
    ensures !correct ==> FirstRoom <= r && position - PenaltyRooms <= r
    ensures !correct ==> r == position - PenaltyRooms || r == FirstRoom
    ensures !correct && FirstRoom <= position ==> r <= position
  {
    if correct then position
    else if position - PenaltyRooms < FirstRoom then FirstRoom
    else position - PenaltyRooms
  }

  // ---------------------------------------------------------------------------
  // The QR token: the leftmost "ROOM_" followed by at least one digit
  // ---------------------------------------------------------------------------

  const RoomPrefix: string := "ROOM_"

  predicate IsDigit(c: char)
  {
    '0' <= c <= '9'
  }

  predicate AllDigits(d: string)
  {
    forall i :: 0 <= i < |d| ==> IsDigit(d[i])
  }

  /** A match of the pattern `ROOM_(\d+)` starts at index `i` of `s`. */
  predicate MatchAt(s: string, i: nat)
  {
    i + |RoomPrefix| < |s| && s[i..i + |RoomPrefix|] == RoomPrefix && IsDigit(s[i + |RoomPrefix|])
  }

  /** The leftmost match at or after `from`. */
  function LeftmostMatch(s: string, from: nat): (r: Option<nat>)
    requires from <= |s|
    ensures r.Some? ==> from <= r.value && MatchAt(s, r.value)
    ensures r.Some? ==> forall i :: from <= i < r.value ==> !MatchAt(s, i)
    ensures r.None? <==> forall i :: from <= i ==> !MatchAt(s, i)
    decreases |s| - from
  {
    if from == |s| then None
    else if MatchAt(s, from) then Some(from)
    else LeftmostMatch(s, from + 1)
  }

  /** Length of the run of digits starting at `from` (the greedy `\d+`). */
  function DigitRunLength(s: string, from: nat): (n: nat)
    requires from <= |s|
    ensures from + n <= |s|
    ensures forall i :: from <= i < from + n ==> IsDigit(s[i])
    ensures from + n == |s| || !IsDigit(s[from + n])
    decreases |s| - from
  {
    if from == |s| || !IsDigit(s[from]) then 0
    else 1 + DigitRunLength(s, from + 1)
  }

  function DigitValue(c: char): nat
    requires IsDigit(c)
  {
    c as int - '0' as int
  }

  /** The decimal value of a digit string (what `parseInt` gives for it). */
  function DigitsValue(d: string): nat
    requires AllDigits(d)
  {
    if d == [] then 0 else 10 * DigitsValue(d[..|d| - 1]) + DigitValue(d[|d| - 1])
  }

  /** The room number a QR token names, or None when it holds no `ROOM_<digits>`. */
  function ParseRoom(qr: string): (r: Option<nat>)
    ensures r.None? <==> forall i :: !MatchAt(qr, i)
  {
    match LeftmostMatch(qr, 0)
    case None => None
    case Some(i) =>
      var start := i + |RoomPrefix|;
      Some(DigitsValue(qr[start .. start + DigitRunLength(qr, start)]))
  }

  function DigitChar(n: nat): (c: char)
    requires n < 10
    ensures IsDigit(c) && DigitValue(c) == n
  {
    ('0' as int + n) as char
  }

  /** The decimal rendering of `n` (what a printed QR code carries). */
  function ShowNat(n: nat): (d: string)
  {
    if n < 10 then [DigitChar(n)] else ShowNat(n / 10) + [DigitChar(n % 10)]
  }

  lemma {:induction false} ShowNatReadsBack(n: nat)
    ensures |ShowNat(n)| > 0 && AllDigits(ShowNat(n))
    ensures DigitsValue(ShowNat(n)) == n
  {
    if n >= 10 {
      ShowNatReadsBack(n / 10);
      var d := ShowNat(n);
      assert d[..|d| - 1] == ShowNat(n / 10);
    }
  }

  /** No match starts inside a text without one of its own when `ROOM_` follows it: the prefix has no self-overlap. */
  lemma NoMatchBeforeToken(pre: string, tail: string)
    requires forall i :: !MatchAt(pre, i)
    ensures forall i :: 0 <= i < |pre| ==> !MatchAt(pre + RoomPrefix + tail, i)
  {
    var s := pre + RoomPrefix + tail;
    var p, n := |RoomPrefix|, |pre|;
    forall i: nat | i < n ensures !MatchAt(s, i) {
      if i + p < n {
        assert s[i..i + p] == pre[i..i + p] && s[i + p] == pre[i + p];
        assert !MatchAt(pre, i);
      } else if i + p == n {
        assert s[i + p] == RoomPrefix[0];
      } else if i + p < |s| {
        assert s[i + 4] == RoomPrefix[i + 4 - n];
        assert s[i..i + p][4] == s[i + 4];
      }
    }
  }

  /** The greedy digit run over `d` followed by a non-digit (or the end) is exactly `d`. */
  lemma DigitRunOver(s: string, from: nat, d: string)
    requires AllDigits(d) && from + |d| <= |s| && s[from..from + |d|] == d
    requires from + |d| == |s| || !IsDigit(s[from + |d|])
    ensures DigitRunLength(s, from) == |d|
    decreases |d|
  {
    if d != [] {
      assert s[from] == d[0];
      assert s[from + 1..from + 1 + |d[1..]|] == d[1..];
      DigitRunOver(s, from + 1, d[1..]);
    }
  }

  /**
   * The room is read from the leftmost `ROOM_<digits>`: whatever comes before
   * it (holding no match of its own), leading zeros, and anything after the
   * digit run (a second token included) do not change it.
   */
  lemma ParseRoomReadsLeftmostToken(pre: string, d: string, rest: string)
    requires forall i :: !MatchAt(pre, i)
    requires d != [] && AllDigits(d)
    requires rest == [] || !IsDigit(rest[0])
    ensures ParseRoom(pre + RoomPrefix + d + rest) == Some(DigitsValue(d))
  {
    var s := pre + RoomPrefix + d + rest;
    var p, n := |RoomPrefix|, |pre|;
    assert s == pre + RoomPrefix + (d + rest);
    NoMatchBeforeToken(pre, d + rest);
    assert s[n..n + p] == RoomPrefix;
    assert s[n + p] == d[0];
    assert MatchAt(s, n);
    assert LeftmostMatch(s, 0) == Some(n);
    assert s[n + p .. n + p + |d|] == d;
    assert rest != [] ==> s[n + p + |d|] == rest[0];
    DigitRunOver(s, n + p, d);
  }

  /** Text before the token and leading zeros are skipped. */
  lemma ParseRoomSkipsPrefixAndZeros()
    ensures ParseRoom("x" + RoomPrefix + "07" + "y") == Some(7)
  {
    assert forall i :: !MatchAt("x", i);
    assert "07"[..1] == "0";
    ParseRoomReadsLeftmostToken("x", "07", "y");
  }

  /** Of two tokens, the first wins. */
  lemma ParseRoomTakesFirstToken()
    ensures ParseRoom(RoomPrefix + "3" + (RoomPrefix + "4")) == Some(3)
  {
    assert "3"[..0] == "";
    ParseRoomReadsLeftmostToken([], "3", RoomPrefix + "4");
    assert [] + RoomPrefix == RoomPrefix;
  }

  /** A printed token `ROOM_<n>`, possibly followed by text not starting with a digit, reads back as `n`. */
  lemma ParseRoomRoundTrip(n: nat, rest: string)
    requires rest == [] || !IsDigit(rest[0])
    ensures ParseRoom(RoomPrefix + ShowNat(n) + rest) == Some(n)
  {
    ShowNatReadsBack(n);
    ParseRoomReadsLeftmostToken([], ShowNat(n), rest);
    assert [] + RoomPrefix == RoomPrefix;
  }

  // ---------------------------------------------------------------------------
  // Answers: trimmed, lower-cased submission against the lower-cased stored answer
  // ---------------------------------------------------------------------------

  /** The whitespace `trim` removes, restricted to ASCII. */
  predicate IsSpace(c: char)
  {
    c == ' ' || c == '\t' || c == '\n' || c == '\r' || c as int == 0x0B || c as int == 0x0C
  }

  function LowerChar(c: char): (r: char)
    ensures IsSpace(r) <==> IsSpace(c)
    ensures !('A' <= c <= 'Z') ==> r == c
  {
    if 'A' <= c <= 'Z' then (c as int - 'A' as int + 'a' as int) as char else c
  }

  /** `toLowerCase` over ASCII letters. */
  function Lower(s: string): (r: string)
    ensures |r| == |s|
    ensures forall i :: 0 <= i < |s| ==> r[i] == LowerChar(s[i])
  {
    seq(|s|, i requires 0 <= i < |s| => LowerChar(s[i]))
  }

  /** Drops leading whitespace: what is left is a suffix that does not start with a space. */
  function TrimStart(s: string): (r: string)
    ensures |r| <= |s| && r == s[|s| - |r|..]
    ensures r == [] || !IsSpace(r[0])
    ensures forall i :: 0 <= i < |s| - |r| ==> IsSpace(s[i])
  {
    if s != [] && IsSpace(s[0]) then TrimStart(s[1..]) else s
  }

  /** Drops trailing whitespace: what is left is a prefix that does not end with a space. */
  function TrimEnd(s: string): (r: string)
    ensures |r| <= |s| && r == s[..|r|]
    ensures r == [] || !IsSpace(r[|r| - 1])
    ensures forall i :: |r| <= i < |s| ==> IsSpace(s[i])
  {
    if s != [] && IsSpace(s[|s| - 1]) then TrimEnd(s[..|s| - 1]) else s
  }

  /**
   * Cutting whitespace off the front of `s` (leaving `t`) and then off the
   * back of `t` (leaving `r`) leaves a slice of `s` with only whitespace
   * after it.
   */
  lemma SpaceCutsLeaveSlice(s: string, t: string, r: string, a: nat)
    requires a <= |s| && t == s[a..]
    requires |r| <= |t| && r == t[..|r|]
    requires forall i :: |r| <= i < |t| ==> IsSpace(t[i])
    ensures a + |r| <= |s| && r == s[a..a + |r|]
    ensures forall i :: a + |r| <= i < |s| ==> IsSpace(s[i])
  {
    forall i | a + |r| <= i < |s| ensures IsSpace(s[i]) {
      assert s[i] == t[i - a];
    }
  }

  /** `trim`: neither end of the result is whitespace. */
  function Trim(s: string): (r: string)
    ensures |r| <= |s|
    ensures r == [] || (!IsSpace(r[0]) && !IsSpace(r[|r| - 1]))
    ensures exists a, b ::
      && 0 <= a <= b <= |s| && r == s[a..b]
      && (forall i :: 0 <= i < a ==> IsSpace(s[i]))
      && (forall i :: b <= i < |s| ==> IsSpace(s[i]))
  {
    var t := TrimStart(s);
    var r := TrimEnd(t);
    SpaceCutsLeaveSlice(s, t, r, |s| - |t|);
    r
  }

  /**
   * The grading test: the submission is trimmed and lower-cased, the stored
   * answer is only lower-cased.
   */
  predicate AnswerMatches(answer: string, stored: string)
  {
    Lower(Trim(answer)) == Lower(stored)
  }

  /**
   * Surrounding whitespace and letter case in the submission do not matter:
   * `pre + core + post` is accepted exactly when `core` equals the stored
   * answer up to ASCII case.
   */
  lemma PaddedAnswerMatches(pre: string, core: string, post: string, stored: string)
    requires forall i :: 0 <= i < |pre| ==> IsSpace(pre[i])
    requires forall i :: 0 <= i < |post| ==> IsSpace(post[i])
    requires core == [] || (!IsSpace(core[0]) && !IsSpace(core[|core| - 1]))
    ensures AnswerMatches(pre + core + post, stored) <==> Lower(core) == Lower(stored)
  {
    var s := pre + core + post;
    forall i | 0 <= i < |pre| ensures s[i] == pre[i] && IsSpace(s[i]) { }
    forall i | 0 <= i < |core| ensures s[|pre| + i] == core[i] { }
    forall i | 0 <= i < |post| ensures s[|pre| + |core| + i] == post[i] && IsSpace(s[|pre| + |core| + i]) { }
    var t := TrimStart(s);
    var cut := |s| - |t|;
    if core == [] {
      assert t == [];
    } else {
      assert t != [] ==> t[0] == s[cut];
      assert cut == |pre|;
      assert t == core + post;
      forall i | 0 <= i < |core| ensures t[i] == core[i] { }
      forall i | 0 <= i < |post| ensures t[|core| + i] == post[i] { }
      var u := TrimEnd(t);
      assert u != [] ==> u[|u| - 1] == t[|u| - 1];
      assert |u| == |core|;
      assert u == core;
    }
  }

  /**
   * A stored answer with a leading or trailing space can never be matched:
   * the submission is trimmed but the stored answer is not.
   */
  lemma UntrimmedStoredAnswerNeverMatches(answer: string, stored: string)
    requires stored != [] && (IsSpace(stored[0]) || IsSpace(stored[|stored| - 1]))
    ensures !AnswerMatches(answer, stored)
  {
    var t := Trim(answer);
    if |t| == |stored| {
      var last := |t| - 1;
      assert Lower(t)[0] == LowerChar(t[0]) && Lower(stored)[0] == LowerChar(stored[0]);
      assert Lower(t)[last] == LowerChar(t[last]) && Lower(stored)[last] == LowerChar(stored[last]);
      assert Lower(t)[0] != Lower(stored)[0] || Lower(t)[last] != Lower(stored)[last];
    }
  }

  // ---------------------------------------------------------------------------
  // Turn rotation over the players listed in turn order
  // ---------------------------------------------------------------------------

  /** `(index + 1) % count`: the following seat, wrapping from the last to the first. */
  function NextIndex(i: nat, n: nat): (r: nat)
    requires i < n
    ensures r < n
    ensures i + 1 < n ==> r == i + 1
    ensures i + 1 == n ==> r == 0
    ensures r == (i + 1) % n
  {
    if i + 1 == n then 0 else i + 1
  }

  /** The seat reached after `k` turn changes starting from seat `i`. */
  function Rotate(i: nat, k: nat, n: nat): (r: nat)
    requires i < n
    ensures r < n
  {
    if k == 0 then i else NextIndex(Rotate(i, k - 1, n), n)
  }

  /** Before wrapping, `k` turn changes move `k` seats forward. */
  lemma {:induction false} RotateForward(i: nat, k: nat, n: nat)
    requires i + k < n
    ensures Rotate(i, k, n) == i + k
  {
    if k > 0 {
      RotateForward(i, k - 1, n);
    }
  }

  lemma {:induction false} RotateCompose(i: nat, a: nat, b: nat, n: nat)
    requires i < n
    ensures Rotate(i, a + b, n) == Rotate(Rotate(i, a, n), b, n)
  {
    if b > 0 {
      RotateCompose(i, a, b - 1, n);
    }
  }

  /** Every seat gets the turn within one full round, and a full round returns to the start. */
  lemma EverySeatGetsATurn(i: nat, j: nat, n: nat)
    requires i < n && j < n
    ensures Rotate(i, if i <= j then j - i else n - i + j, n) == j
    ensures Rotate(i, n, n) == i
  {
    RotateForward(i, n - 1 - i, n);
    assert Rotate(i, n - i, n) == 0;
    if i <= j {
      RotateForward(i, j - i, n);
    } else {
      RotateCompose(i, n - i, j, n);
      RotateForward(0, j, n);
    }
    RotateCompose(i, n - i, i, n);
    RotateForward(0, i, n);
  }
}
