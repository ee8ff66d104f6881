/**
  The command classifier of voice_recognition.c: the synonym lists, the
  whole-string membership test, the classification of a decoder hypothesis
  and, on the Raspberry Pi build, the pin pattern each command drives.
*/
module VoiceCommands {
  import opened Wrappers

  // The synonym lists, in the order the program declares them.
  const MoveForward: seq<string> := ["move", "go", "ahead", "forward"]
  const MoveBackward: seq<string> := ["backward", "reverse", "back"]
  const TurnLeft: seq<string> := ["left", "turn left"]
  const TurnRight: seq<string> := ["right", "turn right"]
  const StopWords: seq<string> := ["stop", "halt", "pause"]

  /** The five command classes, in the order the classifier tries them. */
  datatype Command = Forward | Backward | Left | Right | Stop

  /**
    The synonym list of each class: never empty, and no phrase listed twice
    in it.
  */
  function Synonyms(c: Command): (r: seq<string>)
    ensures |r| > 0
    ensures forall i, j | 0 <= i < j < |r| :: r[i] != r[j]
  {
    match c
    case Forward => MoveForward
    case Backward => MoveBackward
    case Left => TurnLeft
    case Right => TurnRight
    case Stop => StopWords
  }

  /**
    `matches_command`: whether `recognized` is exactly (case-sensitively)
    one of the first `size` entries of `list`.
  */
  function MatchesCommand(recognized: string, list: seq<string>, size: nat): (r: bool)
    requires size <= |list|
    ensures r <==> exists i | 0 <= i < size :: list[i] == recognized
  {
    if size == 0 then false
    else if list[0] == recognized then true
    else
      var rest := MatchesCommand(recognized, list[1..], size - 1);
      assert forall i | 1 <= i < size :: list[1..][i - 1] == list[i];
      rest
  }

  /** No string is on two synonym lists. */
  lemma SynonymListsDisjoint(c: Command, d: Command, s: string)
    requires c != d && s in Synonyms(c)
    ensures s !in Synonyms(d)
  {
  }

  /**
    The if/else chain of `execute_command`: the whole hypothesis is tested
    against the forward, backward, left, right and stop lists in that order,
    and the first list that holds it decides; `None` is "unrecognized".
  */
  function Classify(hyp: string): (r: Option<Command>)
    ensures forall c :: r == Some(c) <==> hyp in Synonyms(c)
    ensures r == None <==> forall c :: hyp !in Synonyms(c)
  {
    var cls :=
      if MatchesCommand(hyp, MoveForward, |MoveForward|) then Some(Forward)
      else if MatchesCommand(hyp, MoveBackward, |MoveBackward|) then Some(Backward)
      else if MatchesCommand(hyp, TurnLeft, |TurnLeft|) then Some(Left)
      else if MatchesCommand(hyp, TurnRight, |TurnRight|) then Some(Right)
      else if MatchesCommand(hyp, StopWords, |StopWords|) then Some(Stop)
      else None;
    assert cls.Some? ==> hyp in Synonyms(cls.value);
    forall c | cls != Some(c) && hyp in Synonyms(c)
      ensures false
    {
      SynonymListsDisjoint(c, cls.value, hyp);
    }
    cls
  }

  // ---------------------------------------------------------------------------
  // Pin patterns (Raspberry Pi build)

  const FrontLeftPin: int := 17
  const FrontRightPin: int := 27
  const BackLeftPin: int := 22
  const BackRightPin: int := 23

  datatype Level = Low | High

  /** One `digitalWrite(pin, level)` call. */
  datatype PinWrite = PinWrite(pin: int, level: Level)

  function Flip(l: Level): Level {
    if l == Low then High else Low
  }

  /**
    The four writes `execute_command` makes for a command: front-left,
    front-right, back-left, back-right, each pin once.
  */
  function PinPattern(c: Command): (w: seq<PinWrite>)
    ensures |w| == 4
    ensures w[0].pin == FrontLeftPin && w[1].pin == FrontRightPin
    ensures w[2].pin == BackLeftPin && w[3].pin == BackRightPin
  {
    var levels := match c
      case Forward => [High, High, Low, Low]
      case Backward => [Low, Low, High, High]
      case Left => [High, Low, Low, High]
      case Right => [Low, High, High, Low]
      case Stop => [Low, Low, Low, Low];
    [PinWrite(FrontLeftPin, levels[0]), PinWrite(FrontRightPin, levels[1]),
     PinWrite(BackLeftPin, levels[2]), PinWrite(BackRightPin, levels[3])]
  }

  /**
    The pin writes `execute_command(hyp)` makes on the Raspberry Pi build:
    the pattern of the hypothesis's class, or none when it is unrecognized.
  */
  function ExecuteCommand(hyp: string): (w: seq<PinWrite>)
    ensures w == [] <==> forall c :: hyp !in Synonyms(c)
    ensures forall c | hyp in Synonyms(c) :: w == PinPattern(c)
  {
    match Classify(hyp)
    case Some(c) => PinPattern(c)
    case None => []
  }

  /** Stop drives all four pins low. */
  lemma StopAllLow()
    ensures forall k | 0 <= k < 4 :: PinPattern(Stop)[k].level == Low
  {
  }

  /** Backward is Forward with every pin flipped, and Right is Left with every pin flipped. */
  lemma OppositePatterns()
    ensures forall k | 0 <= k < 4 :: PinPattern(Backward)[k].level == Flip(PinPattern(Forward)[k].level)
    ensures forall k | 0 <= k < 4 :: PinPattern(Right)[k].level == Flip(PinPattern(Left)[k].level)
  {
  }

  /** Different commands drive different pin patterns. */
  lemma PatternsDistinct(c: Command, d: Command)
    requires c != d
    ensures PinPattern(c) != PinPattern(d)
  {
  }

  /** The whole hypothesis is compared: a two-word list entry is recognised. */
  lemma WholeHypothesisRecognised()
    ensures Classify("turn left") == Some(Left)
    ensures Classify("go") == Some(Forward)
  {
    assert "turn left" in Synonyms(Left);
    assert "go" in Synonyms(Forward);
  }

  /**
    A phrase that merely contains a synonym is not recognised, and neither is
    a synonym in another case.
  */
  lemma PhrasesNotRecognised()
    ensures Classify("move forward") == None
    ensures Classify("Stop") == None
  {
  }
}
