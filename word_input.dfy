/** The guess form (backup/client/src/components/WordInput.tsx): the typed
    word and the error text are state, submitting validates the word and
    hands an accepted one to the `onSubmit` callback, which is recorded in
    `submitted`. The button's disabled state and the markup are not part of
    this model. */
module WordInputForm {
  import opened Wrappers
  import opened Text

  const TooShortMessage: string := "2글자 이상의 단어를 입력해주세요"
  const NotHangulMessage: string := "한글만 입력 가능합니다"

  /** A precomposed Hangul syllable, `가` (U+AC00) to `힣` (U+D7A3). */
  predicate IsHangulSyllable(c: char)
  {
    '\U{AC00}' <= c <= '\U{D7A3}'
  }

  /** `/^[가-힣]+$/.test(word)`: one syllable or more and nothing else. A
      character outside the Basic Multilingual Plane is a surrogate pair to
      the regular expression, and neither half lies in the range either. */
  predicate IsHangulWord(word: string)
  {
    |word| >= 1 && forall i :: 0 <= i < |word| ==> IsHangulSyllable(word[i])
  }

  /** The checks of `handleSubmit`, in their order: the error text to show,
      or none when the word is accepted. */
  function Validate(word: string): (error: Option<string>)
    ensures error.None? <==> Utf16Length(word) >= 2 && IsHangulWord(word)
    ensures Utf16Length(word) < 2 ==> error == Some(TooShortMessage)
    ensures Utf16Length(word) >= 2 && !IsHangulWord(word) ==> error == Some(NotHangulMessage)
  {
    if Utf16Length(word) < 2 then Some(TooShortMessage)
    else if !IsHangulWord(word) then Some(NotHangulMessage)
    else None
  }

  /** Hangul text is counted one unit per syllable. */
  lemma {:induction false} HangulLength(word: string)
    requires forall i :: 0 <= i < |word| ==> IsHangulSyllable(word[i])
    ensures Utf16Length(word) == |word|
    decreases |word|
  {
    if word != [] {
      assert forall i :: 0 <= i < |word[1..]| ==> IsHangulSyllable(word[1..][i]) by {
        forall i | 0 <= i < |word[1..]| ensures IsHangulSyllable(word[1..][i]) {
          assert word[1..][i] == word[i + 1];
        }
      }
      HangulLength(word[1..]);
    }
  }

  /** What the form accepts is exactly the Hangul words of two syllables or
      more. */
  lemma {:induction false} AcceptedWords(word: string)
    ensures Validate(word).None? <==> IsHangulWord(word) && |word| >= 2
  {
    if IsHangulWord(word) {
      HangulLength(word);
    }
  }

  /** The length check comes first: a word too short gets the length
      message even when it is not Hangul. */
  lemma {:induction false} LengthCheckedFirst(word: string)
    requires |word| < 2 && (word == [] || word[0] as int <= 0xFFFF)
    ensures Validate(word) == Some(TooShortMessage)
  {
    if word != [] {
      assert word[1..] == [];
    }
  }

  class WordInput {
    /** The `word` state: what the input shows. */
    var word: string
    /** The `error` state; the empty string shows nothing. */
    var error: string
    /** Every call of `onSubmit`, in order. */
    var submitted: seq<string>

    /** A fresh form: empty input, no error, nothing submitted. */
    constructor()
      ensures word == "" && error == "" && submitted == []
    {
      word := "";
      error := "";
      submitted := [];
    }

    /** `onChange`: the input's value becomes the word. */
    method Change(value: string)
      modifies this
      ensures word == value && error == old(error) && submitted == old(submitted)
    {
      word := value;
    }

    /** `handleSubmit`: on a rejected word only the error changes; on an
        accepted one the error is cleared, `onSubmit` is called once with
        the exact word, and the input is emptied. */
    method HandleSubmit()
      modifies this
      ensures Validate(old(word)).Some? ==>
        error == Validate(old(word)).value && word == old(word) && submitted == old(submitted)
      ensures Validate(old(word)).None? ==>
        error == "" && word == "" && submitted == old(submitted) + [old(word)]
    {
      if Utf16Length(word) < 2 {
        error := TooShortMessage;
        return;
      }
      if !IsHangulWord(word) {
        error := NotHangulMessage;
        return;
      }
      error := "";
      submitted := submitted + [word];
      word := "";
    }
  }

  /** Everything the form ever hands to `onSubmit` passes its validation. */
  lemma {:induction false} SubmittedAreValid(before: seq<string>, after: seq<string>, word: string)
    requires forall k :: 0 <= k < |before| ==> Validate(before[k]).None?
    requires Validate(word).None? && after == before + [word]
    ensures forall k :: 0 <= k < |after| ==> IsHangulWord(after[k]) && |after[k]| >= 2
  {
    forall k | 0 <= k < |after| ensures IsHangulWord(after[k]) && |after[k]| >= 2 {
      AcceptedWords(after[k]);
    }
  }
}
