/** The star rating widget: a rating is checked to be a number, clamped to
    0..5, and drawn as five stars of which those below the rating are filled. */
module RatingStars {
  import opened Common
  import opened Json

  const StarCount: nat := 5

  /** What the widget renders: nothing, or one flag per star (filled or not)
      and the clamped rating shown in its label. */
  datatype Drawing = Nothing | Stars(filled: seq<bool>, normalized: real)

  /** `Math.min(5, Math.max(0, x))` */
  function Clamp(x: real): (r: real)
    ensures 0.0 <= r <= 5.0
    ensures 0.0 <= x <= 5.0 ==> r == x
    ensures x < 0.0 ==> r == 0.0
    ensures x > 5.0 ==> r == 5.0
  {
    var raised := if x > 0.0 then x else 0.0;
    if raised < 5.0 then raised else 5.0
  }

  /** The first `n` stars: star `i` is filled exactly when `i < normalized`. */
  function StarsUpTo(n: nat, normalized: real): (s: seq<bool>)
    ensures |s| == n
    ensures forall i :: 0 <= i < n ==> (s[i] <==> (i as real) < normalized)
  {
    if n == 0 then [] else StarsUpTo(n - 1, normalized) + [((n - 1) as real) < normalized]
  }

  /** `rating` is the prop, `None` when it is not passed (it then defaults to 0). */
  function Render(rating: Option<Value>): (r: Drawing)
    ensures r.Nothing? <==> rating.Some? && !rating.value.Num?
    ensures r.Stars? ==> |r.filled| == StarCount && 0.0 <= r.normalized <= 5.0
    ensures rating.None? ==> r == Stars(StarsUpTo(StarCount, 0.0), 0.0)
    ensures rating.Some? && rating.value.Num? ==> r == Stars(StarsUpTo(StarCount, Clamp(rating.value.x)), Clamp(rating.value.x))
  {
    var v := if rating.None? then Num(0.0) else rating.value;
    if !v.Num? then Nothing
    else
      var n := Clamp(if v.x != 0.0 then v.x else 0.0);
      Stars(StarsUpTo(StarCount, n), n)
  }

  function CountFilled(s: seq<bool>): (n: nat)
    ensures n <= |s|
  {
    if s == [] then 0 else CountFilled(s[..|s| - 1]) + (if s[|s| - 1] then 1 else 0)
  }

  lemma {:induction false} FilledPrefix(n: nat, k: nat)
    ensures CountFilled(StarsUpTo(n, k as real)) == if n < k then n else k
  {
    if n > 0 {
      var s := StarsUpTo(n, k as real);
      assert s[..n - 1] == StarsUpTo(n - 1, k as real);
      FilledPrefix(n - 1, k);
    }
  }

  /** A whole-number rating `r` from 0 to 5 fills exactly `r` stars, the first `r`. */
  lemma WholeRatingFillsThatMany(r: nat)
    requires r <= 5
    ensures Render(Some(Num(r as real))).Stars?
    ensures CountFilled(Render(Some(Num(r as real))).filled) == r
    ensures var stars := Render(Some(Num(r as real))).filled;
              forall i :: 0 <= i < |stars| ==> (stars[i] <==> i < r)
  {
    FilledPrefix(StarCount, r);
  }
}
