/**
  The six score dots drawn for one player and game: grey when there is no
  record, red for a DNF, and for a solve grey-600 before the winning guess,
  emerald at it and grey-800 after it.
*/
module ScoreDots {
  import opened Wrappers
  import opened Seqs
  import opened Games
  import opened Records

  /** The Tailwind background class of one dot. */
  datatype DotColour = Zinc800 | Red700 | Zinc600 | Emerald400

  /** The `score` and `solved` props; `NotPlayed` is both of them undefined,
      which is what a missing record yields. */
  datatype DotsProps = NotPlayed | Played(score: Option<int>, solved: bool)

  /** The colour of dot `i`. */
  function DotColourAt(props: DotsProps, i: nat): DotColour {
    match props
    case NotPlayed => Zinc800
    case Played(score, solved) =>
      if !solved then Red700
      else if i < NumberValue(score) - 1 then Zinc600
      else if i == NumberValue(score) - 1 then Emerald400
      else Zinc800
  }

  /** `Array.from({ length: MAX_GUESSES }).map(...)`: the row of dots. */
  function Dots(props: DotsProps): (dots: seq<DotColour>)
    ensures |dots| == MAX_GUESSES
  {
    seq(MAX_GUESSES, i requires 0 <= i => DotColourAt(props, i))
  }

  /** How many dots of each colour a row holds: six unplayed dots, six red
      dots for a DNF, and for a solve in `s` guesses (1 <= s <= 6) `s - 1`
      grey-600 dots, exactly one emerald dot and `6 - s` grey-800 dots. A
      solve outside 1..6 shows no emerald dot. */
  lemma {:induction false} DotCounts(props: DotsProps)
    ensures props.NotPlayed? ==> Count(Dots(props), Zinc800) == MAX_GUESSES
    ensures props.Played? && !props.solved ==> Count(Dots(props), Red700) == MAX_GUESSES
    ensures props.Played? && props.solved && 1 <= NumberValue(props.score) <= MAX_GUESSES ==>
      var s := NumberValue(props.score);
      && Count(Dots(props), Zinc600) == s - 1
      && Count(Dots(props), Emerald400) == 1
      && Count(Dots(props), Zinc800) == MAX_GUESSES - s
    ensures props.Played? && props.solved && !(1 <= NumberValue(props.score) <= MAX_GUESSES) ==>
      Count(Dots(props), Emerald400) == 0
  {
    var dots := Dots(props);
    match props
    case NotPlayed =>
      CountRange(dots, Zinc800, 0, MAX_GUESSES);
    case Played(score, solved) =>
      if !solved {
        CountRange(dots, Red700, 0, MAX_GUESSES);
      } else {
        var s := NumberValue(score);
        if 1 <= s <= MAX_GUESSES {
          CountRange(dots, Zinc600, 0, s - 1);
          CountRange(dots, Emerald400, s - 1, s);
          CountRange(dots, Zinc800, s, MAX_GUESSES);
        } else {
          CountRange(dots, Emerald400, 0, 0);
        }
      }
  }
}
