/**
 * The two template filters of the application: `split` turns a string into
 * the list of pieces between occurrences of a separator, `strip` removes
 * whitespace from both ends of a string. Both are Python `str` methods
 * applied to the filter's input.
 */
module GameExtras {
  import opened Wrappers
  import PyStr

  /** Python refuses an empty separator (`ValueError: empty separator`). */
  datatype FilterError = EmptySeparator

  /** `{{ value|split:arg }}`: the pieces of `value` between the leftmost
      non-overlapping occurrences of `arg`. Joining them with `arg` gives
      `value` back, none of them contains `arg`, there is one more piece
      than `arg` occurs in `value`, and each piece ends where the leftmost
      `arg` in the rest of the value begins. */
  function Split(value: string, arg: string): (r: Result<seq<string>, FilterError>)
    ensures r.Failure? <==> arg == []
    ensures r.Success? ==> PyStr.Join(r.value, arg) == value
    ensures r.Success? ==> forall p :: p in r.value ==> !PyStr.Contains(p, arg)
    ensures r.Success? ==> |r.value| == PyStr.Count(value, arg) + 1
    ensures r.Success? ==> forall k :: 0 <= k < |r.value| - 1 ==>
      PyStr.IndexOf(PyStr.Join(r.value[k..], arg), arg) == |r.value[k]|
  {
    if arg == [] then Failure(EmptySeparator)
    else
      PyStr.SplitJoin(value, arg);
      PyStr.SplitPiecesFree(value, arg);
      PyStr.SplitLength(value, arg);
      PyStr.SplitLeftmost(value, arg);
      Success(PyStr.Split(value, arg))
  }

  /** `{{ value|strip }}`: `value` without the whitespace at its two ends. The
      result is a contiguous part of `value`, only whitespace was removed
      around it, and it neither starts nor ends with whitespace. */
  function Strip(value: string): (r: string)
    ensures PyStr.NoEdgeSpace(r)
    ensures PyStr.TrimmedOf(value, r)
  {
    PyStr.StripSpec(value);
    PyStr.Strip(value)
  }

  /** Applying the `strip` filter twice is applying it once. */
  lemma StripFilterIdempotent(value: string)
    ensures Strip(Strip(value)) == Strip(value)
  {
    PyStr.StripIdempotent(value);
  }

  /** Splitting with a separator the value does not contain gives the value
      itself as the only piece; in particular the empty value gives `[""]`. */
  lemma SplitWithoutSeparator(value: string, arg: string)
    requires arg != [] && !PyStr.Contains(value, arg)
    ensures Split(value, arg) == Success([value])
  {
  }
}
