/**
 * The quiz-state hook as an object: the hook's state variables become fields, the browser's
 * storage area becomes a map field, and the hook's effects run as the last step of the
 * method whose change would trigger them.
 *
 * Effect order in the hook: the client-flag effect sets `isClient`; the load effect (on a
 * new topic or once the client flag is set) replaces the state by what the topic's slot
 * holds and marks the hook initialised; the save effect (after any change of the answers
 * or the total, once initialised) writes the state back under the topic's key. A storage
 * call that throws is modelled by a `...Fails` parameter: that write or removal has no effect.
 */
module QuizSession {
  import opened Wrappers
  import opened QuizAnswers
  import opened QuizStorage

  class Session {
    var topicId: string
    var userAnswers: seq<UserAnswer>
    var totalQuestions: int
    var isInitialized: bool
    var isClient: bool
    var storage: Storage

    /** The load effect runs as soon as the client flag is set, so the two flags agree between calls. */
    ghost predicate Valid()
      reads this
    {
      isInitialized == isClient
    }

    /** The slot of the active topic. */
    function Key(): string
      reads this
    {
      StorageKey(topicId)
    }

    function State(): QuizState
      reads this
    {
      QuizState(userAnswers, totalQuestions)
    }

    /** Loading the active topic's slot would give back the in-memory state. */
    ghost predicate Persisted()
      reads this
    {
      Decode(ReadSlot(storage, Key())) == State()
    }

    /** The first render: empty state, not yet on the client, nothing read or written. */
    constructor (topicId: string, storage: Storage)
      ensures Valid() && !isClient
      ensures this.topicId == topicId && this.storage == storage
      ensures State() == EmptyState
    {
      this.topicId := topicId;
      userAnswers := [];
      totalQuestions := 0;
      isInitialized := false;
      isClient := false;
      this.storage := storage;
    }

    /** The save effect: write the state under the active key once on the client and initialised. */
    method SaveEffect(writeFails: bool)
      modifies this`storage
      ensures storage == if isClient && isInitialized && !writeFails
                         then old(storage)[Key() := Encode(State())] else old(storage)
    {
      if !isClient || !isInitialized {
        return;
      }
      if !writeFails {
        storage := storage[Key() := Encode(State())];
      }
    }

    /**
     * The load effect and the save effect its state change triggers: clear, read the slot,
     * fall back to the empty state when it is missing or corrupt, mark initialised, save.
     */
    method LoadEffect(writeFails: bool)
      requires isClient
      modifies this`userAnswers, this`totalQuestions, this`isInitialized, this`storage
      ensures Valid() && isInitialized
      ensures State() == Decode(ReadSlot(old(storage), Key()))
      ensures storage == if writeFails then old(storage) else old(storage)[Key() := Encode(State())]
      ensures Persisted()
    {
      userAnswers := [];
      totalQuestions := 0;
      isInitialized := false;
      var saved := ReadSlot(storage, Key());
      if saved.Some? {
        match saved.value
        case Saved(answers, total) =>
          userAnswers := answers.GetOr([]);
          totalQuestions := total.GetOr(0);
        case Corrupt =>
          userAnswers := [];
          totalQuestions := 0;
      } else {
        userAnswers := [];
        totalQuestions := 0;
      }
      isInitialized := true;
      SaveEffect(writeFails);
      DecodeEncode(State());
    }

    /** The client-flag effect, which runs once, and the load it enables. */
    method Mount(writeFails: bool)
      requires Valid()
      modifies this
      ensures Valid() && isClient && topicId == old(topicId)
      ensures old(isClient) ==> State() == old(State()) && storage == old(storage)
      ensures !old(isClient) ==> State() == Decode(ReadSlot(old(storage), Key()))
      ensures !old(isClient) ==> storage == if writeFails then old(storage) else old(storage)[Key() := Encode(State())]
      ensures !old(isClient) ==> Persisted()
    {
      if !isClient {
        isClient := true;
        LoadEffect(writeFails);
      }
    }

    /**
     * The hook receives another topic id. The load effect runs only when the id changed and the
     * client flag is set; it never carries answers of the previous topic over.
     */
    method SwitchTopic(newTopicId: string, writeFails: bool)
      requires Valid()
      modifies this
      ensures Valid() && topicId == newTopicId && isClient == old(isClient)
      ensures newTopicId == old(topicId) || !isClient ==> State() == old(State()) && storage == old(storage)
      ensures newTopicId != old(topicId) && isClient ==>
        && State() == Decode(ReadSlot(old(storage), StorageKey(newTopicId)))
        && storage == (if writeFails then old(storage) else old(storage)[StorageKey(newTopicId) := Encode(State())])
        && Persisted()
    {
      if newTopicId != topicId {
        topicId := newTopicId;
        if isClient {
          LoadEffect(writeFails);
        }
      }
    }

    /**
     * `recordAnswer`: append or replace the record of question `q`, then the save effect
     * (the updater always yields a new list, so it always runs once initialised).
     */
    method RecordAnswer(q: int, selected: seq<int>, correct: seq<int>, writeFails: bool)
      requires Valid()
      modifies this`userAnswers, this`storage
      ensures Valid()
      ensures userAnswers == Recorded(old(userAnswers), q, selected, correct)
      ensures storage == if isInitialized && !writeFails
                         then old(storage)[Key() := Encode(State())] else old(storage)
      ensures isInitialized && !writeFails ==> Persisted()
      ensures GetQuestionAnswer(userAnswers, q) == Some(UserAnswer(q, selected, IsCorrect(selected, correct), true))
      ensures UniqueNumbers(old(userAnswers)) ==> UniqueNumbers(userAnswers)
    {
      userAnswers := Recorded(userAnswers, q, selected, correct);
      SaveEffect(writeFails);
      DecodeEncode(State());
      RecordedThenLookup(old(userAnswers), q, selected, correct);
      if UniqueNumbers(old(userAnswers)) {
        RecordedKeepsUnique(old(userAnswers), q, selected, correct);
      }
    }

    /**
     * `updateTotalQuestions`: set the total. An equal value is no change, so the save effect
     * does not run for it.
     */
    method UpdateTotalQuestions(total: int, writeFails: bool)
      requires Valid()
      modifies this`totalQuestions, this`storage
      ensures Valid() && totalQuestions == total
      ensures storage == if total != old(totalQuestions) && isInitialized && !writeFails
                         then old(storage)[Key() := Encode(State())] else old(storage)
      ensures total != old(totalQuestions) && isInitialized && !writeFails ==> Persisted()
    {
      var changed := total != totalQuestions;
      totalQuestions := total;
      if changed {
        SaveEffect(writeFails);
        DecodeEncode(State());
      }
    }

    /**
     * `resetQuiz`: empty the state, remove the active slot (on the client), then the save effect
     * re-writes the empty state (the answers are always a new empty list). Other slots are untouched.
     */
    method ResetQuiz(removeFails: bool, writeFails: bool)
      requires Valid()
      modifies this`userAnswers, this`totalQuestions, this`storage
      ensures Valid() && State() == EmptyState
      ensures !isClient ==> storage == old(storage)
      ensures isClient ==>
        var removed := if removeFails then old(storage) else old(storage) - {Key()};
        storage == if writeFails then removed else removed[Key() := Encode(EmptyState)]
      ensures isClient && !(removeFails && writeFails) ==> Decode(ReadSlot(storage, Key())) == EmptyState
      ensures forall k :: k != Key() ==> ReadSlot(storage, k) == ReadSlot(old(storage), k)
    {
      userAnswers := [];
      totalQuestions := 0;
      if isClient && !removeFails {
        storage := storage - {Key()};
      }
      SaveEffect(writeFails);
      DecodeEncode(EmptyState);
    }

    /**
     * `clearOtherTopics`: on the client, remove every quiz slot except the active one, one key
     * at a time. When reading the keys throws, nothing is removed.
     */
    method ClearOtherTopics(fails: bool)
      requires Valid()
      modifies this`storage
      ensures !isClient || fails ==> storage == old(storage)
      ensures isClient && !fails ==>
        forall k :: k in storage <==> k in old(storage) && (!IsQuizKey(k) || k == Key())
      ensures forall k :: k in storage ==> k in old(storage) && storage[k] == old(storage)[k]
      ensures ReadSlot(storage, Key()) == ReadSlot(old(storage), Key())
    {
      if !isClient || fails {
        return;
      }
      var active := Key();
      var quizKeys := set k | k in storage && IsQuizKey(k) && k != active;
      var pending := quizKeys;
      while pending != {}
        invariant pending <= quizKeys
        invariant forall k :: k in storage <==> k in old(storage) && (k !in quizKeys || k in pending)
        invariant forall k :: k in storage ==> storage[k] == old(storage)[k]
        decreases pending
      {
        var k :| k in pending;
        storage := storage - {k};
        pending := pending - {k};
      }
    }
  }

  /** A first visit to a topic, with the statistics the page then shows. */
  method ExampleFirstVisit()
  {
    var s := new Session("t1", map[]);
    s.Mount(false);
    assert s.State() == EmptyState;
    NoAnswersStats();
    assert GetQuizStats(s.userAnswers, s.totalQuestions) == QuizStats(0, 0, 0, 0, 0, 0);

    s.UpdateTotalQuestions(5, false);
    s.RecordAnswer(1, [2], [2], false);
    assert s.State() == QuizState([UserAnswer(1, [2], true, true)], 5);
    OneRightOfFiveStats();
    assert GetQuizStats(s.userAnswers, s.totalQuestions).percentage == 20;
    assert s.Persisted();
  }

  /** Without records and questions every statistic is zero. */
  lemma NoAnswersStats()
    ensures GetQuizStats([], 0) == QuizStats(0, 0, 0, 0, 0, 0)
  {
    assert Filter([], WasAnswered) == [];
  }

  /** One correct answer out of five questions scores 20 and leaves four unanswered. */
  lemma OneRightOfFiveStats()
    ensures GetQuizStats([UserAnswer(1, [2], true, true)], 5) == QuizStats(5, 1, 0, 4, 1, 20)
  {
    var s := [UserAnswer(1, [2], true, true)];
    assert Filter(s, WasAnswered) == s;
    assert Filter(s, IsRight) == s;
  }

  /** Re-answering, then moving to another topic and clearing the first one's slot. */
  method ExampleSwitchAndClear()
  {
    var s := new Session("t1", map[]);
    s.Mount(false);
    s.RecordAnswer(1, [2], [2], false);
    s.RecordAnswer(1, [3], [2], false);
    assert s.userAnswers == [UserAnswer(1, [3], false, true)];

    s.SwitchTopic("t2", false);
    assert s.State() == EmptyState;
    s.ClearOtherTopics(false);
    assert StorageKey("t1") !in s.storage;
    assert ReadSlot(s.storage, StorageKey("t2")) == Some(Encode(EmptyState));
  }
}
