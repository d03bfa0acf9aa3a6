/** Ordered fallback search: try candidates in priority order and stop at the
    first one that succeeds.  Both crawlers use this shape for every selector
    list (title, authors, journal, citations, downloads, result rows, next-page
    button, search box), and the date recogniser uses it for regex alternatives. */
module Cascade {

  datatype Option<+T> = None | Some(value: T)

  /** What a cascade found: the position of the candidate that succeeded and
      what that candidate produced. */
  datatype Hit<+T> = Hit(index: nat, value: T)

  /** `probe` applied to `keys[from..]` in order; the first `Some` wins and the
      keys after it are never consulted. */
  function FirstHit<K, T>(keys: seq<K>, probe: K -> Option<T>, from: nat): (r: Option<Hit<T>>)
    requires from <= |keys|
    ensures r.Some? ==> from <= r.value.index < |keys| && probe(keys[r.value.index]) == Some(r.value.value)
    ensures r.Some? ==> forall j :: from <= j < r.value.index ==> probe(keys[j]).None?
    ensures r.None? <==> forall j :: from <= j < |keys| ==> probe(keys[j]).None?
    decreases |keys| - from
  {
    if from == |keys| then None
    else match probe(keys[from])
      case Some(v) => Some(Hit(from, v))
      case None => FirstHit(keys, probe, from + 1)
  }

  /** Short-circuit: once the keys up to a hit are fixed, whatever follows them
      cannot change the outcome. */
  lemma {:induction false} FirstHitIgnoresLaterKeys<K, T>(keys: seq<K>, more: seq<K>, probe: K -> Option<T>, from: nat)
    requires from <= |keys|
    requires FirstHit(keys, probe, from).Some?
    ensures FirstHit(keys + more, probe, from) == FirstHit(keys, probe, from)
    decreases |keys| - from
  {
    assert (keys + more)[from] == keys[from];
    if probe(keys[from]).None? {
      FirstHitIgnoresLaterKeys(keys, more, probe, from + 1);
    }
  }
}
