/** The ordered form-field lists both clients post to their services. */
module Forms {

  /** One form field: a name and its value. */
  type Fields = seq<(string, string)>

  /** `izip(a, a)` over a single iterator of the arguments: consecutive
      pairs (args[0], args[1]), (args[2], args[3]), ...; an odd trailing
      argument has no partner and is dropped. */
  function Pairwise(args: seq<string>): Fields
    decreases |args|
  {
    if |args| < 2 then [] else [(args[0], args[1])] + Pairwise(args[2..])
  }

  /** The list a client posts: its key field first, then the argument pairs. */
  function FormFields(keyName: string, key: string, args: seq<string>): Fields
  {
    [(keyName, key)] + Pairwise(args)
  }

  /** There are floor(n/2) pairs: an odd trailing argument is silently dropped. */
  lemma {:induction false} PairwiseLength(args: seq<string>)
    ensures |Pairwise(args)| == |args| / 2
  {
    if |args| >= 2 {
      PairwiseLength(args[2..]);
    }
  }

  /** Pair k is made of arguments 2k and 2k+1, so order is preserved. */
  lemma {:induction false} PairwiseAt(args: seq<string>, k: nat)
    requires k < |args| / 2
    ensures |Pairwise(args)| == |args| / 2
    ensures Pairwise(args)[k] == (args[2 * k], args[2 * k + 1])
  {
    PairwiseLength(args);
    if k > 0 {
      PairwiseAt(args[2..], k - 1);
      assert args[2..][2 * (k - 1)] == args[2 * k];
      assert args[2..][2 * (k - 1) + 1] == args[2 * k + 1];
    }
  }

  /** The form-field list: the key field, then argument pairs in order. */
  lemma FormFieldsShape(keyName: string, key: string, args: seq<string>)
    ensures |FormFields(keyName, key, args)| == 1 + |args| / 2
    ensures FormFields(keyName, key, args)[0] == (keyName, key)
    ensures forall k :: 0 <= k < |args| / 2 ==>
      FormFields(keyName, key, args)[k + 1] == (args[2 * k], args[2 * k + 1])
  {
    PairwiseLength(args);
    forall k | 0 <= k < |args| / 2
      ensures FormFields(keyName, key, args)[k + 1] == (args[2 * k], args[2 * k + 1])
    {
      PairwiseAt(args, k);
    }
  }
}
