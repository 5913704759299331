/** Splitting text into requests a speech provider accepts, without dropping a character. */
module TtsSplit {
  import opened Arithmetic

  /** What matters about a character: everything but Content is punctuation, spacing or control. */
  datatype Character = Content | SentenceBreak | ClauseBreak | OtherSeparator

  type Text = seq<Character>

  predicate HasContent(text: Text) {
    Content in text
  }

  // ---------------------------------------------------------------- where to cut

  /** What a cut leaves; nothing when it lies beyond the end. */
  function Tail(remaining: Text, splitAt: nat): Text {
    if splitAt <= |remaining| then remaining[splitAt..] else []
  }

  /** Moving the cut back comes to an end: it leaves nothing, or the whole text would be an acceptable tail. */
  predicate Settles(remaining: Text, splitAt: nat, maxChars: int) {
    Tail(remaining, splitAt) == [] || |remaining| >= maxChars || HasContent(remaining)
  }

  /** A cut may not leave a short tail without content: it moves back until the tail has content or a
      whole window is left. */
  ghost function Attached(remaining: Text, splitAt: nat, maxChars: int): (r: nat)
    requires Settles(remaining, splitAt, maxChars)
    ensures r <= splitAt
    decreases splitAt
  {
    var tail := Tail(remaining, splitAt);
    if tail != [] && |tail| < maxChars && !HasContent(tail) then Attached(remaining, splitAt - 1, maxChars) else splitAt
  }

  method AttachTrailingSeparators(remaining: Text, candidate: nat, maxChars: int) returns (splitAt: nat)
    requires Settles(remaining, candidate, maxChars)
    ensures splitAt == Attached(remaining, candidate, maxChars)
  {
    splitAt := candidate;
    var tail := Tail(remaining, splitAt);
    while tail != [] && |tail| < maxChars && !HasContent(tail)
      invariant splitAt <= candidate && tail == Tail(remaining, splitAt) && Settles(remaining, splitAt, maxChars)
      invariant Attached(remaining, splitAt, maxChars) == Attached(remaining, candidate, maxChars)
      decreases splitAt
    {
      assert splitAt == 0 ==> tail == remaining;
      splitAt := splitAt - 1;
      tail := Tail(remaining, splitAt);
    }
  }

  /** Otherwise the loop never ends: every non-empty tail, wherever the cut moves, asks for one more step. */
  lemma UnsettledNeverEnds(remaining: Text, candidate: nat, maxChars: int, splitAt: nat)
    requires !Settles(remaining, candidate, maxChars) && splitAt < |remaining|
    ensures var tail := Tail(remaining, splitAt); tail != [] && |tail| < maxChars && !HasContent(tail)
  {
    assert forall c :: c in remaining[splitAt..] ==> c in remaining;
  }

  /** The position after the last such character, or 0. */
  function LastBreakEnd(window: Text, mark: Character): (r: nat)
    ensures r <= |window|
    ensures r > 0 ==> window[r - 1] == mark
    ensures forall k :: r <= k < |window| ==> window[k] != mark
  {
    if window == [] then 0
    else if window[|window| - 1] == mark then |window|
    else LastBreakEnd(window[..|window| - 1], mark)
  }

  /** A quarter of a window, at least 1. */
  function MinNaturalChars(maxChars: nat): nat {
    if maxChars / 4 < 1 then 1 else maxChars / 4
  }

  /** A break is passed over when nothing before it can be spoken, or when it would carve off a tiny
      head while a whole window remains. */
  function Filtered(remaining: Text, splitAt: nat, maxChars: nat): (r: nat)
    requires splitAt <= maxChars < |remaining|
    ensures r == 0 || r == splitAt
  {
    if splitAt > 0 && !HasContent(remaining[..splitAt]) then 0
    else if splitAt > 0 && splitAt < MinNaturalChars(maxChars) && |remaining| - splitAt >= maxChars then 0
    else splitAt
  }

  /** The last sentence break of the window, else the last clause break, else the whole window. */
  function NaturalBreak(remaining: Text, maxChars: nat): (r: nat)
    requires 0 < maxChars < |remaining|
    ensures 0 < r <= maxChars
    ensures r != maxChars ==> HasContent(remaining[..r])
    ensures r < MinNaturalChars(maxChars) ==> |remaining| - r < maxChars
  {
    var window := remaining[..maxChars];
    var sentence := Filtered(remaining, LastBreakEnd(window, SentenceBreak), maxChars);
    var clause := Filtered(remaining, LastBreakEnd(window, ClauseBreak), maxChars);
    if sentence != 0 then sentence else if clause != 0 then clause else maxChars
  }

  // ---------------------------------------------------------------- the pieces

  /** Moving a cut back keeps it above 0 and leaves at most one window. */
  lemma {:induction false} AttachedFacts(remaining: Text, splitAt: nat, maxChars: nat)
    requires 0 < maxChars < |remaining| && 0 < splitAt <= maxChars
    ensures var r := Attached(remaining, splitAt, maxChars);
      && 0 < r
      && (r < splitAt ==> |remaining| - r <= maxChars && !HasContent(remaining[r + 1..]))
      && (|remaining| - r >= maxChars || HasContent(remaining[r..]))
    decreases splitAt
  {
    hide HasContent;
    var tail := remaining[splitAt..];
    if |tail| < maxChars && !HasContent(tail) {
      AttachedFacts(remaining, splitAt - 1, maxChars);
    }
  }

  ghost function HardCut(remaining: Text, maxChars: nat): (r: nat)
    requires 0 < maxChars < |remaining|
    ensures 0 < r <= maxChars
  {
    AttachedFacts(remaining, maxChars, maxChars);
    Attached(remaining, maxChars, maxChars)
  }

  ghost function NaturalCut(remaining: Text, maxChars: nat): (r: nat)
    requires 0 < maxChars < |remaining|
    ensures 0 < r <= maxChars
  {
    AttachedFacts(remaining, NaturalBreak(remaining, maxChars), maxChars);
    Attached(remaining, NaturalBreak(remaining, maxChars), maxChars)
  }

  ghost function Cut(natural: bool, remaining: Text, maxChars: nat): (r: nat)
    requires 0 < maxChars < |remaining|
    ensures 0 < r <= maxChars
  {
    if natural then NaturalCut(remaining, maxChars) else HardCut(remaining, maxChars)
  }

  /** What either splitter returns. */
  ghost function Pieces(natural: bool, text: Text, maxChars: nat): seq<Text>
    requires maxChars > 0
    decreases |text|
  {
    if |text| <= maxChars then [text]
    else
      var cut := Cut(natural, text, maxChars);
      [text[..cut]] + Pieces(natural, text[cut..], maxChars)
  }

  ghost function Joined(pieces: seq<Text>): Text {
    if pieces == [] then [] else pieces[0] + Joined(pieces[1..])
  }

  /** One turn of either loop. */
  lemma NextPiece(natural: bool, segments: seq<Text>, remaining: Text, maxChars: nat, whole: seq<Text>)
    requires 0 < maxChars < |remaining| && segments + Pieces(natural, remaining, maxChars) == whole
    ensures var cut := Cut(natural, remaining, maxChars);
      segments + [remaining[..cut]] + Pieces(natural, remaining[cut..], maxChars) == whole
  {
  }

  lemma HardCutIsAttached(remaining: Text, maxChars: nat)
    requires 0 < maxChars < |remaining|
    ensures Settles(remaining, maxChars, maxChars)
    ensures Attached(remaining, maxChars, maxChars) == Cut(false, remaining, maxChars)
  {
  }

  /** Splits on the character budget alone. Its guard against a cut at 0 never fires. */
  method HardSplit(text: Text, maxChars: nat) returns (segments: seq<Text>)
    requires maxChars > 0
    ensures segments == Pieces(false, text, maxChars)
  {
    hide Attached, Settles, Cut;
    if |text| <= maxChars {
      return [text];
    }
    segments := [];
    var remaining := text;
    while |remaining| > maxChars
      invariant remaining != []
      invariant segments + Pieces(false, remaining, maxChars) == Pieces(false, text, maxChars)
      decreases |remaining|
    {
      HardCutIsAttached(remaining, maxChars);
      var splitAt := AttachTrailingSeparators(remaining, maxChars, maxChars);
      if splitAt <= 0 {
        splitAt := maxChars;
      }
      NextPiece(false, segments, remaining, maxChars, Pieces(false, text, maxChars));
      segments := segments + [remaining[..splitAt]];
      remaining := remaining[splitAt..];
    }
    if remaining != [] {
      segments := segments + [remaining];
    }
  }

  datatype SplitResult = Split(segments: seq<Text>) | BadLimit

  /** The cut to try first: sentence breaks, then clause breaks, then the whole window. */
  method FindBreak(remaining: Text, maxChars: nat, minNaturalChars: nat) returns (splitAt: nat)
    requires 0 < maxChars < |remaining| && minNaturalChars == MinNaturalChars(maxChars)
    ensures splitAt == NaturalBreak(remaining, maxChars)
  {
    var window := remaining[..maxChars];
    assert forall k :: 0 <= k <= maxChars ==> window[..k] == remaining[..k];
    splitAt := LastBreakEnd(window, SentenceBreak);
    if splitAt != 0 && !HasContent(window[..splitAt]) {
      splitAt := 0;
    }
    if splitAt != 0 && splitAt < minNaturalChars && |remaining| - splitAt >= maxChars {
      splitAt := 0;
    }
    if splitAt == 0 {
      splitAt := LastBreakEnd(window, ClauseBreak);
    }
    if splitAt != 0 && !HasContent(window[..splitAt]) {
      splitAt := 0;
    }
    if splitAt != 0 && splitAt < minNaturalChars && |remaining| - splitAt >= maxChars {
      splitAt := 0;
    }
    if splitAt == 0 {
      splitAt := maxChars;
    }
  }

  /** The cut itself. The guard against a cut at 0 never fires. */
  method FindCut(remaining: Text, maxChars: nat, minNaturalChars: nat) returns (splitAt: nat)
    requires 0 < maxChars < |remaining| && minNaturalChars == MinNaturalChars(maxChars)
    ensures splitAt == NaturalCut(remaining, maxChars)
  {
    ghost var cut := NaturalCut(remaining, maxChars);
    splitAt := FindBreak(remaining, maxChars, minNaturalChars);
    splitAt := AttachTrailingSeparators(remaining, splitAt, maxChars);
    assert splitAt == cut;
    if splitAt <= 0 {
      splitAt := maxChars;
    }
  }

  /** Splits at natural boundaries where there are any. */
  method NaturalSplit(text: Text, maxChars: int) returns (r: SplitResult)
    ensures r == if maxChars <= 0 then BadLimit else Split(Pieces(true, text, maxChars))
  {
    hide NaturalCut;
    if maxChars <= 0 {
      return BadLimit;
    }
    if |text| <= maxChars {
      return Split([text]);
    }
    var minNaturalChars := MinNaturalChars(maxChars);
    var segments := [];
    var remaining := text;
    while |remaining| > maxChars
      invariant remaining != []
      invariant segments + Pieces(true, remaining, maxChars) == Pieces(true, text, maxChars)
      decreases |remaining|
    {
      var splitAt := FindCut(remaining, maxChars, minNaturalChars);
      NextPiece(true, segments, remaining, maxChars, Pieces(true, text, maxChars));
      segments := segments + [remaining[..splitAt]];
      remaining := remaining[splitAt..];
    }
    if remaining != [] {
      segments := segments + [remaining];
    }
    r := Split(segments);
  }

  // ---------------------------------------------------------------- conservation and bounds

  lemma JoinedCons(first: Text, rest: seq<Text>)
    ensures Joined([first] + rest) == first + Joined(rest)
  {
    assert ([first] + rest)[1..] == rest;
  }

  lemma {:induction false} PiecesJoin(natural: bool, text: Text, maxChars: nat)
    requires maxChars > 0
    ensures Joined(Pieces(natural, text, maxChars)) == text
    decreases |text|
  {
    hide Cut;
    if |text| <= maxChars {
      JoinedCons(text, []);
      assert [text] + [] == [text];
    } else {
      hide Joined;
      var cut := Cut(natural, text, maxChars);
      PiecesJoin(natural, text[cut..], maxChars);
      JoinedCons(text[..cut], Pieces(natural, text[cut..], maxChars));
    }
  }

  lemma {:induction false} PiecesFit(natural: bool, text: Text, maxChars: nat)
    requires maxChars > 0 && text != []
    ensures forall p :: p in Pieces(natural, text, maxChars) ==> 0 < |p| <= maxChars
    decreases |text|
  {
    hide Cut;
    if |text| > maxChars {
      PiecesFit(natural, text[Cut(natural, text, maxChars)..], maxChars);
    }
  }

  /** Nothing is lost, no piece is empty, and every piece fits the limit. */
  lemma PiecesConserve(natural: bool, text: Text, maxChars: nat)
    requires maxChars > 0 && text != []
    ensures Joined(Pieces(natural, text, maxChars)) == text
    ensures forall p :: p in Pieces(natural, text, maxChars) ==> 0 < |p| <= maxChars
  {
    PiecesJoin(natural, text, maxChars);
    PiecesFit(natural, text, maxChars);
  }

  /** Pieces within the limit that join to the text are at least as many as the limit allows. */
  lemma {:induction false} FewestPieces(pieces: seq<Text>, maxChars: nat)
    requires forall p :: p in pieces ==> |p| <= maxChars
    ensures |Joined(pieces)| <= |pieces| * maxChars
  {
    if pieces != [] {
      FewestPieces(pieces[1..], maxChars);
      OneMore(|pieces| - 1, maxChars);
    }
  }

  /** A hard cut takes a whole window unless the rest is the last piece. */
  lemma HardCutIsWindow(text: Text, maxChars: nat)
    requires 0 < maxChars < |text|
    ensures HardCut(text, maxChars) == maxChars || |text| - HardCut(text, maxChars) <= maxChars
  {
    AttachedFacts(text, maxChars, maxChars);
  }

  /** The hard splitter cuts whole windows until the last two pieces, so its count is the least
      possible: n pieces exactly when n - 1 would not do. */
  lemma {:induction false} HardCount(text: Text, maxChars: nat)
    requires maxChars > 0 && text != []
    ensures var n := |Pieces(false, text, maxChars)|; n >= 1 && (n - 1) * maxChars < |text| <= n * maxChars
    decreases |text|
  {
    if |text| > maxChars {
      var cut := HardCut(text, maxChars);
      HardCutIsWindow(text, maxChars);
      var rest := text[cut..];
      if |rest| > maxChars {
        HardCount(rest, maxChars);
        var n := |Pieces(false, rest, maxChars)|;
        OneMore(n, maxChars);
        OneMore(n - 1, maxChars);
      }
    }
  }

  /** No other way of cutting the text within the limit needs fewer pieces. */
  lemma HardIsFewest(text: Text, maxChars: nat, other: seq<Text>)
    requires maxChars > 0 && text != []
    requires Joined(other) == text && forall p :: p in other ==> |p| <= maxChars
    ensures |Pieces(false, text, maxChars)| <= |other|
  {
    hide Pieces, Joined;
    HardCount(text, maxChars);
    FewestPieces(other, maxChars);
    var n := |Pieces(false, text, maxChars)|;
    if |other| < n {
      MulMonotone(|other|, n - 1, maxChars);
    }
  }

  /** A natural cut leaves at most one window or takes at least a quarter of one. */
  lemma NaturalCutIsLarge(text: Text, maxChars: nat)
    requires 0 < maxChars < |text|
    ensures |text| - NaturalCut(text, maxChars) <= maxChars || NaturalCut(text, maxChars) >= MinNaturalChars(maxChars)
  {
    AttachedFacts(text, NaturalBreak(text, maxChars), maxChars);
  }

  /** Only the last two natural pieces can be shorter than a quarter window, and those two together
      exceed a window. */
  lemma {:induction false} NaturalCount(text: Text, maxChars: nat)
    requires 0 < maxChars < |text|
    ensures var n := |Pieces(true, text, maxChars)|;
      n >= 2 && (n - 2) * MinNaturalChars(maxChars) + maxChars + 1 <= |text|
    decreases |text|
  {
    hide NaturalCut, MinNaturalChars;
    var cut := NaturalCut(text, maxChars);
    NaturalCutIsLarge(text, maxChars);
    var rest := text[cut..];
    if |rest| > maxChars {
      NaturalCount(rest, maxChars);
      OneMore(|Pieces(true, rest, maxChars)| - 2, MinNaturalChars(maxChars));
    }
  }

  // ---------------------------------------------------------------- where the natural splitter cuts

  /** b is the position after the last such mark among the first maxChars characters, 0 if there is none. */
  ghost predicate LastEnd(text: Text, maxChars: nat, mark: Character, b: nat) {
    && b <= maxChars <= |text|
    && (b > 0 ==> text[b - 1] == mark)
    && forall k :: b <= k < maxChars ==> text[k] != mark
  }

  /** A cut at b leaves something to say before it, and is no tiny head ahead of a whole window. */
  ghost predicate Usable(text: Text, maxChars: nat, b: nat)
    requires b <= |text|
  {
    && (exists i :: 0 <= i < b && text[i] == Content)
    && (b >= maxChars / 4 || |text| - b < maxChars)
  }

  /** The cut tried first is the last sentence break if usable, else the last clause break if usable, else a
      whole window. */
  lemma SentenceThenClause(text: Text, maxChars: nat, sentence: nat, clause: nat)
    requires 0 < maxChars < |text|
    requires LastEnd(text, maxChars, SentenceBreak, sentence) && LastEnd(text, maxChars, ClauseBreak, clause)
    ensures NaturalBreak(text, maxChars)
         == if Usable(text, maxChars, sentence) then sentence else if Usable(text, maxChars, clause) then clause else maxChars
  {
    hide LastEnd, Usable, Filtered, LastBreakEnd;
    LastEndIsBreakEnd(text, maxChars, SentenceBreak, sentence);
    LastEndIsBreakEnd(text, maxChars, ClauseBreak, clause);
    FilteredIsUsable(text, maxChars, sentence);
    FilteredIsUsable(text, maxChars, clause);
  }

  lemma LastEndIsBreakEnd(text: Text, maxChars: nat, mark: Character, b: nat)
    requires LastEnd(text, maxChars, mark, b)
    ensures LastBreakEnd(text[..maxChars], mark) == b
  {
    var window := text[..maxChars];
    var r := LastBreakEnd(window, mark);
    assert r > 0 ==> text[r - 1] == window[r - 1];
    assert b > 0 ==> text[b - 1] == window[b - 1];
  }

  lemma FilteredIsUsable(text: Text, maxChars: nat, b: nat)
    requires b <= maxChars < |text|
    ensures Filtered(text, b, maxChars) == if Usable(text, maxChars, b) then b else 0
    ensures Usable(text, maxChars, b) ==> b > 0
  {
    assert HasContent(text[..b]) <==> exists i :: 0 <= i < b && text[i] == Content by {
      assert forall i :: 0 <= i < b ==> text[..b][i] == text[i];
    }
  }

  /** A cut may stay where it is when a whole window or something to say follows it. */
  ghost predicate MayStay(text: Text, maxChars: nat, k: nat)
    requires k <= |text|
  {
    |text| - k >= maxChars || exists i :: k <= i < |text| && text[i] == Content
  }

  /** Where the splitter cuts a text longer than the limit: at the last position, up to the one tried first,
      where a cut may stay. */
  ghost predicate CutsAt(natural: bool, text: Text, maxChars: nat, sentence: nat, clause: nat, cut: nat)
    requires sentence <= maxChars < |text| && clause <= maxChars
  {
    var first :=
      if natural && Usable(text, maxChars, sentence) then sentence
      else if natural && Usable(text, maxChars, clause) then clause
      else maxChars;
    && 0 < cut <= first && MayStay(text, maxChars, cut)
    && forall k :: cut < k <= first ==> !MayStay(text, maxChars, k)
  }

  /** The first piece of either splitter, by positions of the text alone; the rest is split the same way. */
  lemma FirstPieceExactly(natural: bool, text: Text, maxChars: nat, sentence: nat, clause: nat)
    requires 0 < maxChars < |text|
    requires LastEnd(text, maxChars, SentenceBreak, sentence) && LastEnd(text, maxChars, ClauseBreak, clause)
    ensures var pieces := Pieces(natural, text, maxChars);
      && |pieces| >= 2 && |pieces[0]| <= |text| && pieces[0] == text[..|pieces[0]|]
      && CutsAt(natural, text, maxChars, sentence, clause, |pieces[0]|)
      && pieces[1..] == Pieces(natural, text[|pieces[0]|..], maxChars)
  {
    hide LastEnd, Usable, MayStay, NaturalBreak, Attached;
    SentenceThenClause(text, maxChars, sentence, clause);
    var first := if natural then NaturalBreak(text, maxChars) else maxChars;
    AttachedIsLastStay(text, first, maxChars);
    SomePieces(natural, text[Cut(natural, text, maxChars)..], maxChars);
  }

  lemma ShortTextIsOnePiece(natural: bool, text: Text, maxChars: nat)
    requires maxChars > 0
    ensures Pieces(natural, text, maxChars) == [text] <==> |text| <= maxChars
  {
  }

  lemma SomePieces(natural: bool, text: Text, maxChars: nat)
    requires maxChars > 0
    ensures |Pieces(natural, text, maxChars)| >= 1
  {
  }

  lemma {:induction false} AttachedIsLastStay(text: Text, first: nat, maxChars: nat)
    requires 0 < maxChars < |text| && 0 < first <= maxChars
    ensures var cut := Attached(text, first, maxChars);
      && 0 < cut <= first && MayStay(text, maxChars, cut)
      && forall k :: cut < k <= first ==> !MayStay(text, maxChars, k)
    decreases first
  {
    hide MayStay;
    TailStays(text, first, maxChars);
    if !MayStay(text, maxChars, first) {
      MayStayAtOne(text, first, maxChars);
      AttachedIsLastStay(text, first - 1, maxChars);
    }
  }

  lemma TailStays(text: Text, k: nat, maxChars: nat)
    requires k < |text|
    ensures MayStay(text, maxChars, k) <==> |Tail(text, k)| >= maxChars || HasContent(Tail(text, k))
    ensures Tail(text, k) != []
  {
    assert forall i :: k <= i < |text| ==> text[k..][i - k] == text[i];
  }

  lemma MayStayAtOne(text: Text, first: nat, maxChars: nat)
    requires 0 < maxChars < |text| && first <= maxChars && !MayStay(text, maxChars, first)
    ensures first > 1
  {
  }

  // ---------------------------------------------------------------- speakable pieces

  /** Runs without content are no longer than r characters. */
  ghost predicate RunsAtMost(text: Text, r: nat) {
    forall i, j :: 0 <= i <= j <= |text| && !HasContent(text[i..j]) ==> j - i <= r
  }

  lemma RunsOfSuffix(text: Text, r: nat, k: nat)
    requires RunsAtMost(text, r) && k <= |text|
    ensures RunsAtMost(text[k..], r)
  {
    forall i, j | 0 <= i <= j <= |text[k..]| && !HasContent(text[k..][i..j]) ensures j - i <= r {
      assert text[k..][i..j] == text[k + i..k + j];
    }
  }

  lemma LongEnough(text: Text, r: nat, i: nat, j: nat)
    requires RunsAtMost(text, r) && i <= j <= |text| && j - i > r
    ensures HasContent(text[i..j])
  {
    hide HasContent;
  }

  /** What is known of a cut before runs are considered: `first` is the cut tried first. */
  lemma CutFacts(natural: bool, remaining: Text, maxChars: nat) returns (first: nat)
    requires 0 < maxChars < |remaining|
    ensures var cut := Cut(natural, remaining, maxChars);
      && cut <= first <= maxChars
      && (first != maxChars ==> HasContent(remaining[..first]))
      && (cut < first ==> |remaining| - cut <= maxChars && !HasContent(remaining[cut + 1..]))
      && (|remaining| - cut >= maxChars || HasContent(remaining[cut..]))
  {
    hide HasContent, Attached;
    first := if natural then NaturalBreak(remaining, maxChars) else maxChars;
    AttachedFacts(remaining, first, maxChars);
  }

  /** With short runs, both sides of a cut can be spoken. */
  lemma CutIsSpeakable(natural: bool, remaining: Text, maxChars: nat)
    requires 0 < maxChars < |remaining| && RunsAtMost(remaining, (maxChars - 1) / 2)
    ensures HasContent(remaining[..Cut(natural, remaining, maxChars)])
    ensures HasContent(remaining[Cut(natural, remaining, maxChars)..])
  {
    hide HasContent, RunsAtMost, Cut;
    var r, n, cut := (maxChars - 1) / 2, |remaining|, Cut(natural, remaining, maxChars);
    var first := CutFacts(natural, remaining, maxChars);
    assert remaining[cut..] == remaining[cut..n];
    if n - cut >= maxChars {
      LongEnough(remaining, r, cut, n);
    }
    assert remaining[..cut] == remaining[0..cut];
    if cut < first {
      assert remaining[cut + 1..] == remaining[cut + 1..n];
      if n - (cut + 1) > r {
        LongEnough(remaining, r, cut + 1, n);
      }
    }
    if cut > r {
      LongEnough(remaining, r, 0, cut);
    }
  }

  lemma {:induction false} PiecesAreSpeakable(natural: bool, text: Text, maxChars: nat)
    requires maxChars > 0 && HasContent(text) && RunsAtMost(text, (maxChars - 1) / 2)
    ensures forall p :: p in Pieces(natural, text, maxChars) ==> HasContent(p)
    decreases |text|
  {
    if |text| > maxChars {
      var cut := Cut(natural, text, maxChars);
      CutIsSpeakable(natural, text, maxChars);
      RunsOfSuffix(text, (maxChars - 1) / 2, cut);
      PiecesAreSpeakable(natural, text[cut..], maxChars);
    }
  }

  // ---------------------------------------------------------------- accepting a text

  const MaxSegments: nat := 40

  datatype Verdict = Accepted(segments: seq<Text>) | EmptyText | NothingToSay | TooLong | TooManyRequests | UnspeakableRequest

  /** What a provider configured with these limits does with a text. */
  ghost function Judged(text: Text, maxChars: nat, maxTotal: nat): Verdict
    requires maxChars > 0
  {
    if text == [] then EmptyText
    else if !HasContent(text) then NothingToSay
    else if |text| > maxTotal then TooLong
    else
      var natural := Pieces(true, text, maxChars);
      var segments := if |natural| > MaxSegments then Pieces(false, text, maxChars) else natural;
      if |segments| > MaxSegments then TooManyRequests
      else if exists p :: p in segments && !HasContent(p) then UnspeakableRequest
      else Accepted(segments)
  }

  method SegmentsForProvider(text: Text, maxChars: nat, maxTotal: nat) returns (r: Verdict)
    requires maxChars > 0
    ensures r == Judged(text, maxChars, maxTotal)
  {
    if text == [] {
      return EmptyText;
    }
    if !HasContent(text) {
      return NothingToSay;
    }
    if |text| > maxTotal {
      return TooLong;
    }
    var split := NaturalSplit(text, maxChars);
    var segments := split.segments;
    if |segments| > MaxSegments {
      segments := HardSplit(text, maxChars);
    }
    if |segments| > MaxSegments {
      return TooManyRequests;
    }
    var speakable := AllSpeakable(segments);
    r := if speakable then Accepted(segments) else UnspeakableRequest;
  }

  method AllSpeakable(segments: seq<Text>) returns (speakable: bool)
    ensures speakable <==> forall p :: p in segments ==> HasContent(p)
  {
    for k := 0 to |segments|
      invariant forall i :: 0 <= i < k ==> HasContent(segments[i])
    {
      if !HasContent(segments[k]) {
        return false;
      }
    }
    speakable := true;
  }

  lemma PiecesCover(natural: bool, text: Text, maxChars: nat)
    requires maxChars > 0 && text != []
    ensures |Pieces(natural, text, maxChars)| <= MaxSegments ==> |text| <= MaxSegments * maxChars
  {
    var n := |Pieces(natural, text, maxChars)|;
    PiecesConserve(natural, text, maxChars);
    FewestPieces(Pieces(natural, text, maxChars), maxChars);
    Windows(n, maxChars);
  }

  lemma HardFits(text: Text, maxChars: nat)
    requires maxChars > 0 && text != []
    ensures |text| <= MaxSegments * maxChars ==> |Pieces(false, text, maxChars)| <= MaxSegments
  {
    HardCount(text, maxChars);
    Windows(|Pieces(false, text, maxChars)| - 1, maxChars);
  }

  /** Among texts within the total limit, too many requests means exactly: longer than 40 windows. */
  lemma TooManyRequestsExactly(text: Text, maxChars: nat, maxTotal: nat)
    requires maxChars > 0 && HasContent(text) && |text| <= maxTotal
    ensures Judged(text, maxChars, maxTotal) == TooManyRequests <==> |text| > MaxSegments * maxChars
  {
    PiecesCover(true, text, maxChars);
    PiecesCover(false, text, maxChars);
    HardFits(text, maxChars);
  }

  lemma Windows(n: int, maxChars: nat)
    requires maxChars > 0
    ensures n <= MaxSegments ==> n * maxChars <= MaxSegments * maxChars
    ensures n >= MaxSegments ==> n * maxChars >= MaxSegments * maxChars
  {
    if n <= MaxSegments {
      MulMonotone(n, MaxSegments, maxChars);
    } else {
      MulMonotone(MaxSegments, n, maxChars);
    }
  }

  /** Every verdict and its cause; the causes are looked for in this order. The natural pieces are taken unless
      there are more than 40 of them. */
  lemma VerdictExactly(text: Text, maxChars: nat, maxTotal: nat)
    requires maxChars > 0
    ensures
      var verdict := Judged(text, maxChars, maxTotal);
      var silent := forall k :: 0 <= k < |text| ==> text[k] != Content;
      var natural := Pieces(true, text, maxChars);
      var pieces := if |natural| <= 40 then natural else Pieces(false, text, maxChars);
      var mute := exists p :: p in pieces && Content !in p;
      && (verdict == EmptyText <==> text == [])
      && (verdict == NothingToSay <==> text != [] && silent)
      && (verdict == TooLong <==> !silent && |text| > maxTotal)
      && (verdict == TooManyRequests <==> !silent && |text| <= maxTotal && |text| > 40 * maxChars)
      && (verdict == UnspeakableRequest <==> !silent && |text| <= maxTotal && |text| <= 40 * maxChars && mute)
      && (verdict.Accepted? <==> !silent && |text| <= maxTotal && |text| <= 40 * maxChars && !mute)
      && (verdict.Accepted? ==> verdict.segments == pieces)
  {
    hide Pieces;
    var natural := Pieces(true, text, maxChars);
    var pieces := if |natural| <= 40 then natural else Pieces(false, text, maxChars);
    if p :| p in pieces && Content !in p {
      assert !HasContent(p);
    }
    if HasContent(text) && |text| <= maxTotal {
      TooManyRequestsExactly(text, maxChars, maxTotal);
    }
  }

  /** With separator runs below half a window, acceptance depends on the length alone. */
  lemma AcceptedExactly(text: Text, maxChars: nat, maxTotal: nat)
    requires maxChars > 0 && HasContent(text) && RunsAtMost(text, (maxChars - 1) / 2)
    ensures Judged(text, maxChars, maxTotal).Accepted? <==> |text| <= maxTotal && |text| <= MaxSegments * maxChars
  {
    PiecesAreSpeakable(true, text, maxChars);
    PiecesAreSpeakable(false, text, maxChars);
    if |text| <= maxTotal {
      TooManyRequestsExactly(text, maxChars, maxTotal);
    }
  }

  /** An accepted text is conserved: its requests join to it, each within the limit, each speakable,
      at most 40 of them. */
  lemma AcceptedIsSafe(text: Text, maxChars: nat, maxTotal: nat)
    requires maxChars > 0 && Judged(text, maxChars, maxTotal).Accepted?
    ensures var segments := Judged(text, maxChars, maxTotal).segments;
      && Joined(segments) == text && |segments| <= MaxSegments
      && forall p :: p in segments ==> 0 < |p| <= maxChars && HasContent(p)
  {
    PiecesConserve(true, text, maxChars);
    PiecesConserve(false, text, maxChars);
  }

  // ---------------------------------------------------------------- the run bound is sharp

  /** One content character between runs of half a window: one longer than the bound allows. */
  ghost function Straddled(maxChars: nat): Text {
    seq((maxChars + 1) / 2, _ => OtherSeparator) + [Content] + seq(maxChars / 2, _ => OtherSeparator)
  }

  lemma {:induction false} NoBreak(window: Text, mark: Character)
    requires mark !in window
    ensures LastBreakEnd(window, mark) == 0
  {
    if window != [] {
      NoBreak(window[..|window| - 1], mark);
    }
  }

  lemma {:induction false} AttachedStops(remaining: Text, splitAt: nat, target: nat, maxChars: nat)
    requires 0 < maxChars < |remaining| && target <= splitAt <= |remaining|
    requires target < |remaining| <= target + maxChars && remaining[target] == Content && !HasContent(remaining[target + 1..])
    requires splitAt < |remaining|
    ensures Attached(remaining, splitAt, maxChars) == target
    decreases splitAt
  {
    if splitAt == target {
      assert remaining[target..][0] == Content;
    } else {
      forall k | 0 <= k < |remaining[splitAt..]| ensures remaining[splitAt..][k] != Content {
        assert remaining[splitAt..][k] == remaining[target + 1..][splitAt - target - 1 + k];
      }
      AttachedStops(remaining, splitAt - 1, target, maxChars);
    }
  }

  lemma StraddledFacts(maxChars: nat)
    requires 0 < maxChars
    ensures HasContent(Straddled(maxChars)) && RunsAtMost(Straddled(maxChars), (maxChars - 1) / 2 + 1)
    ensures |Straddled(maxChars)| == maxChars + 1
  {
    var text := Straddled(maxChars);
    var head := (maxChars + 1) / 2;
    assert text[head] == Content;
    forall i, j | 0 <= i <= head < j <= |text| ensures HasContent(text[i..j]) {
      assert text[i..j][head - i] == Content;
    }
  }

  lemma StraddledCut(maxChars: nat)
    requires 0 < maxChars
    ensures |Straddled(maxChars)| == maxChars + 1
    ensures NaturalCut(Straddled(maxChars), maxChars) == (maxChars + 1) / 2
  {
    var text := Straddled(maxChars);
    var window := text[..maxChars];
    NoBreak(window, SentenceBreak);
    NoBreak(window, ClauseBreak);
    assert NaturalBreak(text, maxChars) == maxChars;
    AttachedStops(text, maxChars, (maxChars + 1) / 2, maxChars);
  }

  /** For every limit there is a text with runs of at most (maxChars - 1) / 2 + 1 that is refused
      although its length is fine. */
  lemma RunBoundIsSharp(maxChars: nat, maxTotal: nat)
    requires 0 < maxChars < maxTotal
    ensures HasContent(Straddled(maxChars)) && RunsAtMost(Straddled(maxChars), (maxChars - 1) / 2 + 1)
    ensures |Straddled(maxChars)| == maxChars + 1
    ensures Judged(Straddled(maxChars), maxChars, maxTotal) == UnspeakableRequest
  {
    var text := Straddled(maxChars);
    StraddledFacts(maxChars);
    StraddledCut(maxChars);
    var cut := (maxChars + 1) / 2;
    var head, tail := text[..cut], text[cut..];
    assert Pieces(true, tail, maxChars) == [tail];
    assert Pieces(true, text, maxChars) == [head] + [tail];
    assert ([head] + [tail])[0] == head && !HasContent(head);
  }
}
