/**
 The chat session of the IntBuddy front end. Streamlit re-runs the page
 script on every interaction against a persistent key-value session state;
 the keys this logic touches are `chat_history`, `qa_chain` and `structured`.
 A key that was never set, or was wiped by `session_state.clear()`, is
 `Absent`; `qa_chain` can also be present and hold `None`.

 The retrieval chain and the model behind it are not modelled: a chain is the
 retriever it was built with, and its answer is a function the caller supplies.
 */
module ChatSession {
  import opened Wrappers
  import opened Text

  datatype Turn = Turn(question: string, answer: string)

  /** A session-state key: never set or cleared, or set to a value. */
  datatype Slot<T> = Absent | Present(value: T)

  /** The embedded interview chunks `load_vectorstore` returns. */
  datatype VectorStore = VectorStore(chunks: seq<string>)

  datatype Retriever = Retriever(store: VectorStore, k: nat)

  /** A conversational retrieval chain, known by its retriever. */
  datatype QaChain = QaChain(retriever: Retriever)

  /** Number of chunks the retriever returns per question. */
  const RetrieverK: nat := 5

  const ResetKeywords: seq<string> := ["exit", "quit", "bye"]

  /** `prompt.lower().strip() in ["exit", "quit", "bye"]`. */
  predicate IsReset(prompt: string): (r: bool)
    ensures r ==> 3 <= |prompt|
  {
    Strip(Lower(prompt)) in ResetKeywords
  }

  datatype State = State(chatHistory: Slot<seq<Turn>>, qaChain: Slot<Option<QaChain>>, structured: Slot<string>)

  /** The state after `session_state.clear()`, and of a brand-new session. */
  const Cleared: State := State(Absent, Absent, Absent)

  /** Both keys the chat reads have been set. */
  predicate Initialised(s: State) {
    s.chatHistory.Present? && s.qaChain.Present?
  }

  /** Lines 92-95: set `chat_history` to [] and `qa_chain` to None where absent. */
  function InitState(s: State): (r: State)
    ensures Initialised(r)
    ensures s.chatHistory.Present? ==> r.chatHistory == s.chatHistory
    ensures s.qaChain.Present? ==> r.qaChain == s.qaChain
    ensures r.structured == s.structured
  {
    State(
      if s.chatHistory.Absent? then Present([]) else s.chatHistory,
      if s.qaChain.Absent? then Present(None) else s.qaChain,
      s.structured)
  }

  /** Lines 98-110: store the loaded data and build a chain over the loaded store. */
  function LoadState(s: State, store: VectorStore, structuredData: string): (r: State)
    ensures r.qaChain.Present? && r.qaChain.value.Some?
    ensures r.qaChain.value.value.retriever == Retriever(store, 5)
    ensures r.structured == Present(structuredData)
    ensures r.chatHistory == s.chatHistory
  {
    s.(structured := Present(structuredData), qaChain := Present(Some(QaChain(Retriever(store, RetrieverK)))))
  }

  /** Lines 113-127: one chat input on an initialised state, giving the new
      state and the answer shown, if any. `prompt` is None when nothing was
      submitted; `answerOf` is the chain's answer to a question given the
      history before it. */
  function AskState(s: State, prompt: Option<string>, answerOf: (QaChain, string, seq<Turn>) -> string): (r: (State, Option<string>))
    requires Initialised(s)
    ensures r.1.None? ==> r.0 == s || r.0 == Cleared
    ensures r.1.Some? ==> Initialised(r.0) && |r.0.chatHistory.value| == |s.chatHistory.value| + 1
  {
    if s.qaChain.value.None? || prompt.None? || prompt.value == [] then (s, None)
    else if IsReset(prompt.value) then (Cleared, None)
    else
      var answer := answerOf(s.qaChain.value.value, prompt.value, s.chatHistory.value);
      (s.(chatHistory := Present(s.chatHistory.value + [Turn(prompt.value, answer)])), Some(answer))
  }

  /** One run of the page script: initialise, load when the button was pressed,
      then take the chat input. */
  function RunState(s: State, load: Option<(VectorStore, string)>, prompt: Option<string>,
                    answerOf: (QaChain, string, seq<Turn>) -> string): (r: (State, Option<string>))
    ensures r.1.Some? ==> load.Some? || (s.qaChain.Present? && s.qaChain.value.Some?)
  {
    var s1 := InitState(s);
    var s2 := if load.Some? then LoadState(s1, load.value.0, load.value.1) else s1;
    AskState(s2, prompt, answerOf)
  }

  /** Initialising twice is initialising once, and an initialised state is left alone. */
  lemma InitIdempotent(s: State)
    ensures InitState(InitState(s)) == InitState(s)
    ensures Initialised(s) ==> InitState(s) == s
  {
  }

  /** A new or cleared session starts with an empty history and no chain. */
  lemma InitCleared()
    ensures InitState(Cleared) == State(Present([]), Present(None), Absent)
  {
  }

  /** Without a chain no question is answered and nothing changes. */
  lemma NoChainNoAnswer(s: State, prompt: Option<string>, answerOf: (QaChain, string, seq<Turn>) -> string)
    requires Initialised(s) && s.qaChain.value.None?
    ensures AskState(s, prompt, answerOf) == (s, None)
  {
  }

  /** An answer is given exactly when a chain is set and a non-empty,
      non-reset question was submitted. */
  lemma AnswerIff(s: State, prompt: Option<string>, answerOf: (QaChain, string, seq<Turn>) -> string)
    requires Initialised(s)
    ensures AskState(s, prompt, answerOf).1.Some? <==>
      s.qaChain.value.Some? && prompt.Some? && prompt.value != [] && !IsReset(prompt.value)
  {
  }

  /** A reset keyword wipes every key, answers nothing and appends nothing. */
  lemma ResetClears(s: State, prompt: string, answerOf: (QaChain, string, seq<Turn>) -> string)
    requires Initialised(s) && s.qaChain.value.Some?
    requires IsReset(prompt)
    ensures AskState(s, Some(prompt), answerOf) == (Cleared, None)
  {
  }

  /** A question passes the history as it was before the turn and then appends
      exactly one (question, answer) pair, leaving everything else unchanged. */
  lemma AskAppends(s: State, prompt: string, answerOf: (QaChain, string, seq<Turn>) -> string)
    requires Initialised(s) && s.qaChain.value.Some?
    requires prompt != [] && !IsReset(prompt)
    ensures var (r, answer) := AskState(s, Some(prompt), answerOf);
      && answer == Some(answerOf(s.qaChain.value.value, prompt, s.chatHistory.value))
      && r.chatHistory.Present?
      && |r.chatHistory.value| == |s.chatHistory.value| + 1
      && r.chatHistory.value[..|s.chatHistory.value|] == s.chatHistory.value
      && r.chatHistory.value[|s.chatHistory.value|] == Turn(prompt, answer.value)
      && r.qaChain == s.qaChain && r.structured == s.structured
  {
    var (r, answer) := AskState(s, Some(prompt), answerOf);
    assert r.chatHistory.value[..|s.chatHistory.value|] == s.chatHistory.value;
  }

  /** After a reset, the next run without a load refuses every question: the run
      re-initialises to an empty history and no chain. */
  lemma ResetThenRefused(s: State, keyword: string, prompt: Option<string>, answerOf: (QaChain, string, seq<Turn>) -> string)
    requires Initialised(s) && s.qaChain.value.Some?
    requires IsReset(keyword)
    ensures var (cleared, _) := AskState(s, Some(keyword), answerOf);
      RunState(cleared, None, prompt, answerOf) == (State(Present([]), Present(None), Absent), None)
  {
    ResetClears(s, keyword, answerOf);
  }

  /** The reset check ignores case and surrounding whitespace. */
  lemma ResetIgnoresCaseAndPadding(w1: string, prompt: string, w2: string)
    requires AllSpace(w1) && AllSpace(w2)
    ensures IsReset(w1 + Upper(prompt) + w2) <==> IsReset(prompt)
  {
    LowerConcat(w1 + Upper(prompt), w2);
    LowerConcat(w1, Upper(prompt));
    LowerKeepsSpace(w1);
    LowerKeepsSpace(w2);
    LowerUpper(prompt);
    StripAbsorbs(w1, Lower(prompt), w2);
  }

  /** A session: the three keys of the Streamlit session state. */
  class Session {
    var chatHistory: Slot<seq<Turn>>
    var qaChain: Slot<Option<QaChain>>
    var structured: Slot<string>

    function Snapshot(): State
      reads this
    {
      State(chatHistory, qaChain, structured)
    }

    /** A browser session that has not run the script yet holds no keys. */
    constructor()
      ensures Snapshot() == Cleared
    {
      chatHistory := Absent;
      qaChain := Absent;
      structured := Absent;
    }

    method Init()
      modifies this
      ensures Snapshot() == InitState(old(Snapshot()))
    {
      if chatHistory.Absent? {
        chatHistory := Present([]);
      }
      if qaChain.Absent? {
        qaChain := Present(None);
      }
    }

    method Load(store: VectorStore, structuredData: string)
      modifies this
      ensures Snapshot() == LoadState(old(Snapshot()), store, structuredData)
    {
      structured := Present(structuredData);
      qaChain := Present(Some(QaChain(Retriever(store, RetrieverK))));
    }

    /** `st.session_state.clear()`. */
    method Reset()
      modifies this
      ensures Snapshot() == Cleared
    {
      chatHistory := Absent;
      qaChain := Absent;
      structured := Absent;
    }

    method Ask(prompt: Option<string>, answerOf: (QaChain, string, seq<Turn>) -> string) returns (answer: Option<string>)
      requires Initialised(Snapshot())
      modifies this
      ensures (Snapshot(), answer) == AskState(old(Snapshot()), prompt, answerOf)
    {
      answer := None;
      if qaChain.value.None? {
        return;
      }
      if prompt.None? || prompt.value == [] {
        return;
      }
      if IsReset(prompt.value) {
        Reset();
        return;
      }
      var reply := answerOf(qaChain.value.value, prompt.value, chatHistory.value);
      chatHistory := Present(chatHistory.value + [Turn(prompt.value, reply)]);
      answer := Some(reply);
    }

    /** One run of the page script. */
    method Run(load: Option<(VectorStore, string)>, prompt: Option<string>,
               answerOf: (QaChain, string, seq<Turn>) -> string) returns (answer: Option<string>)
      modifies this
      ensures (Snapshot(), answer) == RunState(old(Snapshot()), load, prompt, answerOf)
    {
      Init();
      if load.Some? {
        Load(load.value.0, load.value.1);
      }
      answer := Ask(prompt, answerOf);
    }
  }
}
