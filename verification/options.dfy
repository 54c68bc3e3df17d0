/** The optional value used wherever the original returns `null` or a "not found" result. */
module Options {

  datatype Option<+T> = None | Some(value: T)

  /** The index of the first `Some` in `xs` at or after `from`, if there is one. */
  function FirstSome<T>(xs: seq<Option<T>>, from: nat): Option<nat>
    requires from <= |xs|
    decreases |xs| - from
  {
    if from == |xs| then None
    else if xs[from].Some? then Some(from)
    else FirstSome(xs, from + 1)
  }

  /** `FirstSome` finds a `Some`, and every entry it passes over on the way is `None`. */
  lemma {:induction false} FirstSomeIsFirst<T>(xs: seq<Option<T>>, from: nat)
    requires from <= |xs|
    ensures var r := FirstSome(xs, from);
      && (r.Some? ==> from <= r.value < |xs| && xs[r.value].Some?)
      && (r.Some? ==> forall j :: from <= j < r.value ==> xs[j].None?)
      && (r.None? ==> forall j :: from <= j < |xs| ==> xs[j].None?)
    decreases |xs| - from
  {
    if from < |xs| && xs[from].None? {
      FirstSomeIsFirst(xs, from + 1);
    }
  }
}
