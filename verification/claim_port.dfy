/**
 * The claim/complete register of an interrupt controller, seen from the kernel.
 * Reading it claims the highest pending interrupt (the hardware chooses the
 * value); writing an id back completes that interrupt. The model keeps, at
 * each such register, the log of accesses made to it.
 */
module ClaimPort {

  datatype PortAccess = ClaimRead(value: nat) | CompleteWrite(value: nat)

  /** Ids written back as completions, in order. */
  function Completions(log: seq<PortAccess>): (ids: seq<nat>)
    ensures |ids| <= |log|
  {
    if log == [] then []
    else
      var rest := Completions(log[1..]);
      if log[0].CompleteWrite? then [log[0].value] + rest else rest
  }

  lemma CompletionsAppend(a: seq<PortAccess>, b: seq<PortAccess>)
    ensures Completions(a + b) == Completions(a) + Completions(b)
  {
    if a == [] {
      assert a + b == b;
    } else {
      assert (a + b)[1..] == a[1..] + b;
      CompletionsAppend(a[1..], b);
    }
  }

  /** Index of the first 0 in a sequence of claimed values, or its length when there is none. */
  function FirstZero(claims: seq<nat>): (k: nat)
    ensures k <= |claims|
    ensures k < |claims| ==> claims[k] == 0
    ensures forall j :: 0 <= j < k ==> claims[j] != 0
  {
    if claims == [] then 0
    else if claims[0] == 0 then 0
    else 1 + FirstZero(claims[1..])
  }

  /** Accesses made by claiming and completing each of the given non-zero ids in turn. */
  function ClaimCompletePairs(ids: seq<nat>): (log: seq<PortAccess>)
    ensures |log| == 2 * |ids|
    ensures forall j :: 0 <= j < |ids| ==> log[2 * j] == ClaimRead(ids[j]) && log[2 * j + 1] == CompleteWrite(ids[j])
  {
    if ids == [] then []
    else [ClaimRead(ids[0]), CompleteWrite(ids[0])] + ClaimCompletePairs(ids[1..])
  }

  lemma {:induction false} PairsCompleteEveryId(ids: seq<nat>)
    ensures Completions(ClaimCompletePairs(ids)) == ids
  {
    if ids != [] {
      var rest := ClaimCompletePairs(ids[1..]);
      assert ClaimCompletePairs(ids) == [ClaimRead(ids[0])] + ([CompleteWrite(ids[0])] + rest);
      CompletionsAppend([ClaimRead(ids[0])], [CompleteWrite(ids[0])] + rest);
      CompletionsAppend([CompleteWrite(ids[0])], rest);
      PairsCompleteEveryId(ids[1..]);
    }
  }

  lemma PairsSnoc(ids: seq<nat>, x: nat)
    ensures ClaimCompletePairs(ids + [x]) == ClaimCompletePairs(ids) + [ClaimRead(x), CompleteWrite(x)]
  {
    if ids != [] {
      assert (ids + [x])[1..] == ids[1..] + [x];
      PairsSnoc(ids[1..], x);
    }
  }
}
