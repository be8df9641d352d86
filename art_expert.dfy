/** `PolishArtExpertRAG`: turns the search results for a question into numbered,
    source-labelled context fragments, cuts the context to a whitespace-token
    budget, and asks a chat-completion model with a system prompt, the earlier
    conversation and the question plus context. The completion service is a
    function given to `GetResponse`. */
module ArtExpert {
  import opened Wrappers
  import opened PyText
  import opened RagDatabase

  datatype Message = Message(role: string, content: string)

  /** What is sent to the chat-completion service. */
  datatype CompletionRequest = CompletionRequest(model: string, messages: seq<Message>, temperature: real, maxTokens: nat)

  /** The service's answer: the first choice's content, or the text of the exception it raised. */
  datatype Completion = Answered(content: string) | Failed(error: string)

  /** The dictionary `get_response` returns. */
  datatype ChatReply = ChatReply(assistantResponse: string, fragments: seq<string>)

  /** `get_response` always searches for 3 results, whatever `num_results` says. */
  const ContextTopK: int := 3
  const ResponseTokenLimit: int := 16000
  const ResponseMaxTokens: nat := 16000
  const MissingSource: string := "Brak źródła"
  const ErrorPrefix: string := "Przepraszamy, wystąpił błąd: "

  /** The default system prompt. Rule 5 runs straight into rule 6: the two lines
      are joined without a line break. */
  const DefaultSystemPrompt: string :=
    "Jesteś ekspertem w dziedzinie sztuki, który zawsze odpowiada w języku polskim. \n"
    + "Korzystaj z dostarczonych fragmentów kontekstu, aby udzielić dokładnej odpowiedzi.\n"
    + "Jeśli informacja nie znajduje się w kontekście, bazuj na swojej wiedzy ogólnej.\n"
    + "Zawsze zachowuj przyjazny i profesjonalny ton wypowiedzi.\n\n"
    + "Ważne zasady:\n"
    + "1. Odpowiadaj tylko po polsku\n"
    + "2. Zachowaj spójność i płynność wypowiedzi\n"
    + "3. Obecnym dziekanem Wydziału Sztuki Mediów jest dr Piotr Kucia\n"
    + "4. Jesteśmy na wystawie z okazji piętnastolecia Wydziału Sztuki Mediów, która odbywa się w Pałacu Czapskich Krakowskie Przedmieście 5 Galeria -1\n"
    + "5. Wystawa trwa od 28 lutego 2025 do 27 marca 2025"
    + "6. Nie wspominaj bezpośrednio o kontekście\n"
    + "7. Dzisiaj jest 28.02.2025\n"
    + "8. Nazywasz się Art Chat"

  /** The source a result is labelled with: its metadata's file name, or
      `MissingSource` when it has no metadata or no file name. */
  function SourceName(r: SearchResult): (s: string)
    ensures r.metadata.Some? && FilenameKey in r.metadata.value ==> s == r.metadata.value[FilenameKey]
    ensures !(r.metadata.Some? && FilenameKey in r.metadata.value) ==> s == MissingSource
  {
    if r.metadata.Some? && FilenameKey in r.metadata.value then r.metadata.value[FilenameKey] else MissingSource
  }

  /** Fragment number `i` of the context. */
  function Fragment(i: nat, source: string, text: string): (f: string)
    ensures |f| > 9 + |text| && f[..9] == "Fragment " && f[|f| - |text| - 1..] == text + "\n"
  {
    "Fragment " + (NatToString(i) + (" (Źródło: " + (source + ("):\n" + (text + "\n")))))
  }

  /** One fragment per result, numbered from 1 in result order. */
  function Fragments(results: seq<SearchResult>): (fs: seq<string>)
    ensures |fs| == |results|
  {
    seq(|results|, j requires 0 <= j < |results| => Fragment(j + 1, SourceName(results[j]), results[j].text))
  }

  /** The context cut to its first `limit` whitespace tokens, re-joined by single
      spaces; a context within the budget is kept as it is. */
  function Truncate(context: string, limit: int): (r: string)
    ensures |Split(context)| <= limit ==> r == context
    ensures Split(r) == SliceTo(Split(context), limit)
    ensures |Split(context)| > limit ==> r == Join(" ", Split(r))
  {
    var tokens := Split(context);
    if |tokens| > limit then SplitJoin(SliceTo(tokens, limit)); Join(" ", SliceTo(tokens, limit)) else context
  }

  /** The context text and the fragments `_prepare_context` returns for these results. */
  function ContextFor(results: seq<SearchResult>, tokenLimit: int): (string, seq<string>)
  {
    (Truncate(Join("\n", Fragments(results)), tokenLimit), Fragments(results))
  }

  /** The history entries a request includes: none for `None` or an empty list. */
  function HistoryOf(history: Option<seq<Message>>): seq<Message>
  {
    if history.Some? then history.value else []
  }

  function UserMessage(query: string, context: string): Message
  {
    Message("user", query + "\n\nKONTEKST:\n" + context)
  }

  /** The message list of a request. */
  function ChatMessages(prompt: string, history: Option<seq<Message>>, query: string, context: string): (ms: seq<Message>)
    ensures |ms| == |HistoryOf(history)| + 2
    ensures ms[0] == Message("system", prompt) && ms[|ms| - 1].role == "user"
  {
    [Message("system", prompt)] + HistoryOf(history) + [UserMessage(query, context)]
  }

  /** The assistant text of a reply: the answer, or the apology with the error. */
  function ReplyText(c: Completion): (t: string)
    ensures c.Answered? ==> t == c.content
    ensures c.Failed? ==> |ErrorPrefix| <= |t| && t[..|ErrorPrefix|] == ErrorPrefix && t[|ErrorPrefix|..] == c.error
  {
    match c
    case Answered(content) => content
    case Failed(error) => ErrorPrefix + error
  }

  lemma DigitsThenSpace(a: string, x: string, b: string, y: string)
    requires forall i :: 0 <= i < |a| ==> '0' <= a[i] <= '9'
    requires forall i :: 0 <= i < |b| ==> '0' <= b[i] <= '9'
    requires x != [] && x[0] == ' ' && y != [] && y[0] == ' '
    requires a + x == b + y
    ensures a == b
  {
    assert a == (a + x)[..|a|];
    assert b == (b + y)[..|b|];
  }

  lemma PrefixCancel(p: string, u: string, v: string)
    requires p + u == p + v
    ensures u == v
  {
    assert u == (p + u)[|p|..];
    assert v == (p + v)[|p|..];
  }

  /** A fragment's number can be read back from it: two fragments with
      different numbers always differ, whatever their sources and texts. */
  lemma FragmentNumberDetermined(i: nat, s1: string, t1: string, j: nat, s2: string, t2: string)
    requires Fragment(i, s1, t1) == Fragment(j, s2, t2)
    ensures i == j
  {
    var p := "Fragment ";
    var x := " (Źródło: " + (s1 + ("):\n" + (t1 + "\n")));
    var y := " (Źródło: " + (s2 + ("):\n" + (t2 + "\n")));
    PrefixCancel(p, NatToString(i) + x, NatToString(j) + y);
    DigitsThenSpace(NatToString(i), x, NatToString(j), y);
    ParseNatToString(i);
    ParseNatToString(j);
  }

  /** The fragments of a context are pairwise different. */
  lemma FragmentsDistinct(results: seq<SearchResult>)
    ensures forall i, j :: 0 <= i < j < |results| ==> Fragments(results)[i] != Fragments(results)[j]
  {
    forall i, j | 0 <= i < j < |results|
      ensures Fragments(results)[i] != Fragments(results)[j]
    {
      if Fragments(results)[i] == Fragments(results)[j] {
        FragmentNumberDetermined(i + 1, SourceName(results[i]), results[i].text,
                                 j + 1, SourceName(results[j]), results[j].text);
      }
    }
  }

  /** Truncation keeps exactly the first `limit` tokens (in Python's slice sense)
      and nothing else; a context within the budget comes back unchanged, and a
      longer one has exactly `limit` tokens. */
  lemma TruncateKeepsPrefix(context: string, limit: int)
    ensures Split(Truncate(context, limit)) == SliceTo(Split(context), limit)
    ensures |Split(context)| <= limit ==> Truncate(context, limit) == context
    ensures 0 <= limit < |Split(context)| ==> |Split(Truncate(context, limit))| == limit
    ensures |Split(context)| > limit ==> Truncate(context, limit) == Join(" ", SliceTo(Split(context), limit))
  {
    var tokens := Split(context);
    if |tokens| > limit {
      SplitJoin(SliceTo(tokens, limit));
    } else {
      assert SliceTo(tokens, limit) == tokens;
    }
  }

  /** A request holds the system prompt first, then the history in order, then
      one user message carrying the question and the context. */
  lemma ChatMessagesLayout(prompt: string, history: Option<seq<Message>>, query: string, context: string)
    ensures var ms := ChatMessages(prompt, history, query, context);
      |ms| == |HistoryOf(history)| + 2
      && ms[0] == Message("system", prompt)
      && ms[1..|ms| - 1] == HistoryOf(history)
      && ms[|ms| - 1].role == "user"
      && ms[|ms| - 1].content == query + "\n\nKONTEKST:\n" + context
      && (history.None? || history.value == [] ==> |ms| == 2)
  {
    var ms := ChatMessages(prompt, history, query, context);
    assert ms[1..|ms| - 1] == HistoryOf(history);
  }

  /** Search results whose metadata was requested from a consistent system are
      always labelled with their file names: the fallback source never shows. */
  lemma SourcesAreFileNames(rag: PolishRagSystem, query: string)
    requires rag.Valid()
    ensures var r := rag.SearchSpec(query, ContextTopK, true);
      r.Ok? ==> forall j :: 0 <= j < |r.value| ==>
        r.value[j].metadata.Some? && SourceName(r.value[j]) == r.value[j].metadata.value[FilenameKey]
  {
    if rag.index != null {
      var hits := FlatIndex.Nearest(rag.index.vectors, rag.model.encode(query), ContextTopK);
      SearchMapsHits(hits, rag.documents, rag.metadata, true);
    }
  }

  class PolishArtExpertRag {
    const ragSystem: PolishRagSystem
    const model: string
    const maxContextLength: int
    var baseSystemPrompt: string

    constructor (ragSystem: PolishRagSystem, model: string, maxContextLength: int)
      ensures this.ragSystem == ragSystem && this.model == model && this.maxContextLength == maxContextLength
      ensures baseSystemPrompt == DefaultSystemPrompt
    {
      this.ragSystem := ragSystem;
      this.model := model;
      this.maxContextLength := maxContextLength;
      baseSystemPrompt := DefaultSystemPrompt;
    }

    /** Searches for `ContextTopK` results with metadata (`numResults` is not
        used), numbers them into fragments and truncates the joined context. */
    method PrepareContext(query: string, numResults: int, tokenLimit: int)
      returns (r: Result<(string, seq<string>), RagError>)
      requires ragSystem.Valid()
      ensures var s := ragSystem.SearchSpec(query, ContextTopK, true);
        r == if s.Err? then Err(s.error) else Ok(ContextFor(s.value, tokenLimit))
    {
      var searched := ragSystem.Search(query, ContextTopK, true);
      if searched.Err? {
        return Err(searched.error);
      }
      var results := searched.value;
      var fragments, contextParts := NumberFragments(results);
      var fullContext := Join("\n", contextParts);
      r := Ok((Truncate(fullContext, tokenLimit), fragments));
    }

    /** The fragment loop of `_prepare_context`: numbers the results from 1 and
        labels each with its source, collecting the fragments twice over. */
    static method NumberFragments(results: seq<SearchResult>) returns (fragments: seq<string>, contextParts: seq<string>)
      ensures fragments == Fragments(results) && contextParts == fragments
    {
      fragments, contextParts := [], [];
      ghost var all := Fragments(results);
      for i := 0 to |results|
        invariant contextParts == fragments
        invariant fragments == all[..i]
      {
        var filename := SourceName(results[i]);
        var fragment := Fragment(i + 1, filename, results[i].text);
        assert all[i] == fragment;
        assert all[..i + 1] == all[..i] + [all[i]];
        contextParts := contextParts + [fragment];
        fragments := fragments + [fragment];
      }
      assert all[..|results|] == all;
    }

    /** Builds the request from the system prompt, the history (if any) and the
        question with its context, and returns the answer, or the apology when
        the service fails, together with the fragments in both cases. */
    method GetResponse(userQuery: string, history: Option<seq<Message>>, temperature: real,
                       complete: CompletionRequest -> Completion)
      returns (r: Result<ChatReply, RagError>)
      requires ragSystem.Valid()
      ensures var s := ragSystem.SearchSpec(userQuery, ContextTopK, true);
        r == if s.Err? then Err(s.error)
             else
               var (context, fragments) := ContextFor(s.value, ResponseTokenLimit);
               var messages := ChatMessages(baseSystemPrompt, history, userQuery, context);
               Ok(ChatReply(ReplyText(complete(CompletionRequest(model, messages, temperature, ResponseMaxTokens))), fragments))
    {
      var prepared := PrepareContext(userQuery, 3, ResponseTokenLimit);
      if prepared.Err? {
        return Err(prepared.error);
      }
      var (context, fragments) := prepared.value;
      var messages := [Message("system", baseSystemPrompt)];
      if history.Some? && history.value != [] {
        messages := messages + history.value;
      }
      assert messages == [Message("system", baseSystemPrompt)] + HistoryOf(history);
      messages := messages + [Message("user", userQuery + "\n\nKONTEKST:\n" + context)];
      assert messages == ChatMessages(baseSystemPrompt, history, userQuery, context);
      var assistantResponse: string;
      match complete(CompletionRequest(model, messages, temperature, ResponseMaxTokens)) {
        case Answered(content) =>
          assistantResponse := content;
        case Failed(error) =>
          assistantResponse := ErrorPrefix + error;
      }
      r := Ok(ChatReply(assistantResponse, fragments));
    }
  }
}
