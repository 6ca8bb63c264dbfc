/**
 * The values the `category` and `diet` columns have held over the schema's
 * history: a plain string (the old `CharField`), a list of labels (the
 * `ArrayField`), or null.  Both cleaning migrations drop the "none" label
 * from lists.
 */
module LabelValues {

  datatype FieldValue = Null | Str(s: string) | List(items: seq<string>)

  /** The placeholder label that the migrations remove. */
  const NoneLabel: string := "none"

  /** Python truthiness of the value: null, "" and [] are false. */
  predicate Truthy(v: FieldValue) {
    match v
    case Null => false
    case Str(s) => s != []
    case List(xs) => xs != []
  }

  /** `[item for item in xs if item != "none"]`. */
  function RemoveNone(xs: seq<string>): seq<string> {
    if xs == [] then []
    else (if xs[0] == NoneLabel then [] else [xs[0]]) + RemoveNone(xs[1..])
  }

  /** `ys` is `xs` with some elements left out, the rest in their original order. */
  predicate IsSubsequence(ys: seq<string>, xs: seq<string>)
    decreases |xs|
  {
    if xs == [] then ys == []
    else (ys != [] && ys[0] == xs[0] && IsSubsequence(ys[1..], xs[1..])) || IsSubsequence(ys, xs[1..])
  }

  lemma {:induction false} RemoveNoneDropsNone(xs: seq<string>)
    ensures NoneLabel !in RemoveNone(xs)
  {
    if xs != [] {
      RemoveNoneDropsNone(xs[1..]);
    }
  }

  lemma {:induction false} RemoveNoneCounts(xs: seq<string>, x: string)
    requires x != NoneLabel
    ensures multiset(RemoveNone(xs))[x] == multiset(xs)[x]
  {
    if xs != [] {
      RemoveNoneCounts(xs[1..], x);
      assert xs == [xs[0]] + xs[1..];
      assert multiset(xs) == multiset([xs[0]]) + multiset(xs[1..]);
      var head := if xs[0] == NoneLabel then [] else [xs[0]];
      assert multiset(RemoveNone(xs)) == multiset(head) + multiset(RemoveNone(xs[1..]));
    }
  }

  lemma {:induction false} RemoveNoneKeepsOrder(xs: seq<string>)
    ensures IsSubsequence(RemoveNone(xs), xs)
  {
    if xs != [] {
      RemoveNoneKeepsOrder(xs[1..]);
      var r := RemoveNone(xs);
      if xs[0] != NoneLabel {
        assert r[0] == xs[0] && r[1..] == RemoveNone(xs[1..]);
      } else {
        assert r == RemoveNone(xs[1..]);
      }
    }
  }

  /** The filter keeps every other label, as often as it occurs and in its order, and
      nothing else. */
  lemma RemoveNoneSpec(xs: seq<string>)
    ensures NoneLabel !in RemoveNone(xs)
    ensures forall x :: x != NoneLabel ==> multiset(RemoveNone(xs))[x] == multiset(xs)[x]
    ensures IsSubsequence(RemoveNone(xs), xs)
  {
    RemoveNoneDropsNone(xs);
    forall x | x != NoneLabel ensures multiset(RemoveNone(xs))[x] == multiset(xs)[x] {
      RemoveNoneCounts(xs, x);
    }
    RemoveNoneKeepsOrder(xs);
  }

  /** The filter changes a list exactly when the list holds "none". */
  lemma {:induction false} RemoveNoneUnchangedIff(xs: seq<string>)
    ensures RemoveNone(xs) == xs <==> NoneLabel !in xs
  {
    if xs != [] {
      RemoveNoneUnchangedIff(xs[1..]);
      RemoveNoneDropsNone(xs);
      if xs[0] != NoneLabel {
        assert xs == [xs[0]] + xs[1..];
      }
    }
  }

  /** Filtering twice is filtering once. */
  lemma RemoveNoneIdempotent(xs: seq<string>)
    ensures RemoveNone(RemoveNone(xs)) == RemoveNone(xs)
  {
    RemoveNoneSpec(xs);
    RemoveNoneUnchangedIff(RemoveNone(xs));
  }
}
