/** Sequences without repetition. */
module Lists {
  ghost predicate NoRepeat<T>(l: seq<T>) {
    forall j, k :: 0 <= j < k < |l| ==> l[j] != l[k]
  }
}
