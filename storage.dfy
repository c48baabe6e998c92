/**
 * The per-topic persistence slot of the quiz-state hook: the key naming scheme, the stored
 * payload (JSON text abstracted to what `JSON.parse` can yield) and the load/save conversions.
 */
module QuizStorage {
  import opened Wrappers
  import opened QuizAnswers

  /** Every topic's slot key starts with this. */
  const KeyPrefix: string := "quiz_state_"

  /** `key.startsWith('quiz_state_')` */
  predicate IsQuizKey(key: string): (r: bool)
    ensures r <==> exists topicId :: key == KeyPrefix + topicId
  {
    assert |KeyPrefix| <= |key| ==> key == key[..|KeyPrefix|] + key[|KeyPrefix|..];
    |KeyPrefix| <= |key| && key[..|KeyPrefix|] == KeyPrefix
  }

  /** `quiz_state_${topicId}`: a quiz key from which the topic id can be read back. */
  function StorageKey(topicId: string): (key: string)
    ensures IsQuizKey(key)
    ensures key[|KeyPrefix|..] == topicId
  {
    KeyPrefix + topicId
  }

  /** Distinct topics never share a slot. */
  lemma StorageKeyInjective(a: string, b: string)
    ensures StorageKey(a) == StorageKey(b) <==> a == b
  {
    if StorageKey(a) == StorageKey(b) {
      assert a == StorageKey(a)[|KeyPrefix|..] == StorageKey(b)[|KeyPrefix|..] == b;
    }
  }

  /**
   * What a stored string parses into. `Saved` is an object whose `userAnswers` and
   * `totalQuestions` fields may each be missing; `Corrupt` is text on which `JSON.parse`
   * throws (or yields something whose fields cannot be read).
   */
  datatype Stored =
    | Saved(userAnswers: Option<seq<UserAnswer>>, totalQuestions: Option<int>)
    | Corrupt

  /** The storage area: keys to parsed values. Keys of other applications are kept as they are. */
  type Storage = map<string, Stored>

  /** `localStorage.getItem(key)`: `None` for a missing key. */
  function ReadSlot(storage: Storage, key: string): (slot: Option<Stored>)
    ensures slot.Some? <==> key in storage
    ensures slot.Some? ==> slot.value == storage[key]
  {
    if key in storage then Some(storage[key]) else None
  }

  /** `JSON.stringify({ userAnswers, totalQuestions })` */
  function Encode(state: QuizState): (stored: Stored)
    ensures stored.Saved? && stored.userAnswers.Some? && stored.totalQuestions.Some?
    ensures Decode(Some(stored)) == state
  {
    Saved(Some(state.userAnswers), Some(state.totalQuestions))
  }

  /**
   * The load step: a missing or unparsable slot gives the empty state; a parsed slot gives
   * its fields, a missing field defaulting to `[]` or `0`.
   */
  function Decode(slot: Option<Stored>): (state: QuizState)
    ensures slot.None? || slot == Some(Corrupt) ==> state == EmptyState
    ensures slot.Some? && slot.value.Saved? ==>
      && state.userAnswers == (if slot.value.userAnswers.Some? then slot.value.userAnswers.value else [])
      && state.totalQuestions == (if slot.value.totalQuestions.Some? then slot.value.totalQuestions.value else 0)
  {
    match slot
    case None => EmptyState
    case Some(Corrupt) => EmptyState
    case Some(Saved(answers, total)) => QuizState(answers.GetOr([]), total.GetOr(0))
  }

  /** Saving and then loading gives back the state that was saved. */
  lemma DecodeEncode(state: QuizState)
    ensures Decode(Some(Encode(state))) == state
  {
  }

  /** Re-saving what was loaded keeps it: a second load gives the same state. */
  lemma LoadSaveLoad(slot: Option<Stored>)
    ensures Decode(Some(Encode(Decode(slot)))) == Decode(slot)
  {
    DecodeEncode(Decode(slot));
  }
}
