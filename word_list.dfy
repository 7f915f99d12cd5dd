/** The list of guesses (backup/client/src/components/WordList.tsx): a
    placeholder when there are none, otherwise one numbered row per guess
    with a colour by similarity. The percentage text and the bar width are
    floating-point formatting and are not part of this model. */
module WordListView {
  import WordService

  const EmptyPlaceholder: string := "아직 시도한 단어가 없습니다"

  /** The four colour classes of `getSimilarityColor`, from the closest
      guesses to the farthest. */
  datatype Bucket = Green | Yellow | Orange | Red

  /** `getSimilarityColor`: at least 0.8 green, at least 0.6 yellow, at least
      0.4 orange, red below. */
  function SimilarityBucket(similarity: real): (b: Bucket)
    ensures b == Green <==> similarity >= 0.8
    ensures b == Yellow <==> 0.6 <= similarity < 0.8
    ensures b == Orange <==> 0.4 <= similarity < 0.6
    ensures b == Red <==> similarity < 0.4
  {
    if similarity >= 0.8 then Green
    else if similarity >= 0.6 then Yellow
    else if similarity >= 0.4 then Orange
    else Red
  }

  /** The CSS classes each bucket stands for. */
  function BucketClass(b: Bucket): string
  {
    match b
    case Green => "bg-green-100 text-green-800"
    case Yellow => "bg-yellow-100 text-yellow-800"
    case Orange => "bg-orange-100 text-orange-800"
    case Red => "bg-red-100 text-red-800"
  }

  /** How close a bucket is: 3 for green down to 0 for red. */
  function Tier(b: Bucket): (t: nat)
    ensures t <= 3
  {
    match b
    case Green => 3
    case Yellow => 2
    case Orange => 1
    case Red => 0
  }

  /** A higher similarity never gets a farther bucket. */
  lemma {:induction false} BucketMonotone(s1: real, s2: real)
    requires s1 <= s2
    ensures Tier(SimilarityBucket(s1)) <= Tier(SimilarityBucket(s2))
  {
  }

  /** Distinct buckets have distinct classes. */
  lemma {:induction false} BucketClassesDistinct(b1: Bucket, b2: Bucket)
    requires b1 != b2
    ensures BucketClass(b1) != BucketClass(b2)
  {
    assert BucketClass(b1)[3] != BucketClass(b2)[3] || BucketClass(b1)[4] != BucketClass(b2)[4];
  }

  /** One rendered row: the number shown before the word, the word, and its
      colour class. */
  datatype Row = Row(number: nat, word: string, colour: string)

  /** What the component renders. */
  datatype View = Placeholder(text: string) | Rows(rows: seq<Row>)

  /** `WordList({ words })`: the placeholder for an empty list; otherwise
      the words in the given order, numbered from 1. */
  function Render(words: seq<WordService.WordListItem>): (v: View)
    ensures words == [] <==> v == Placeholder(EmptyPlaceholder)
    ensures words != [] ==> v.Rows? && |v.rows| == |words|
    ensures v.Rows? ==> forall i :: 0 <= i < |v.rows| ==>
      v.rows[i] == Row(i + 1, words[i].word, BucketClass(SimilarityBucket(words[i].similarity)))
  {
    if |words| == 0 then Placeholder(EmptyPlaceholder)
    else Rows(seq(|words|, i requires 0 <= i < |words| =>
      Row(i + 1, words[i].word, BucketClass(SimilarityBucket(words[i].similarity)))))
  }

  /** Rendering a list ordered by similarity, highest first, gives colours
      that never get closer further down. */
  lemma {:induction false} RenderedColoursDescend(words: seq<WordService.WordListItem>, i: nat, j: nat)
    requires forall a, b :: 0 <= a < b < |words| ==> words[a].similarity >= words[b].similarity
    requires i <= j < |words|
    ensures Tier(SimilarityBucket(words[j].similarity)) <= Tier(SimilarityBucket(words[i].similarity))
  {
    if i < j {
      BucketMonotone(words[j].similarity, words[i].similarity);
    }
  }
}
