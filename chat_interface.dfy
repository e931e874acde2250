/**
 * The conversation state of the chat front end: the list of (question,
 * answer) turns the chat widget holds, what a new message does to it, and
 * what "regenerate" does to it.
 *
 * The document retriever is a parameter of type Retriever, like the chat
 * backend of LlmService: whatever it returns for a query, or the error it
 * raises, is what a turn works with.
 */
module ChatInterface {
  import opened Wrappers
  import opened Text
  import opened LlmService

  /** The answer recorded when retrieving documents fails. */
  const RetrievalApology: string := "抱歉，检索相关文档时出现错误，请稍后重试。"

  /** What separates the page contents of consecutive documents in the context. */
  const Separator: string := "\n\n"

  /** A retrieved chunk of the uploaded document; only its text is used. */
  datatype Document = Document(pageContent: string)

  /** Retrieval of the chunks relevant to a query, or the error it raises. */
  type Retriever = string -> Result<seq<Document>, BackendError>

  /** `"\n\n".join(doc.page_content for doc in docs)`. */
  function JoinContents(docs: seq<Document>): (r: string)
    ensures docs == [] ==> r == ""
    ensures |docs| == 1 ==> r == docs[0].pageContent
  {
    if docs == [] then ""
    else if |docs| == 1 then docs[0].pageContent
    else docs[0].pageContent + Separator + JoinContents(docs[1..])
  }

  /** Where the page content of document `i` starts in the joined context:
      every earlier document contributes its text and one separator. */
  function Offset(docs: seq<Document>, i: nat): (n: nat)
    requires i <= |docs|
  {
    if i == 0 then 0 else Offset(docs, i - 1) + |docs[i - 1].pageContent| + |Separator|
  }

  lemma {:induction false} OffsetTail(docs: seq<Document>, i: nat)
    requires 1 <= i <= |docs|
    ensures Offset(docs, i) == |docs[0].pageContent| + |Separator| + Offset(docs[1..], i - 1)
  {
    if i > 1 {
      OffsetTail(docs, i - 1);
    }
  }

  /** The joined context is exactly as long as the documents' texts plus one
      separator between each two consecutive ones. */
  lemma {:induction false} JoinLength(docs: seq<Document>)
    requires docs != []
    ensures |JoinContents(docs)| + |Separator| == Offset(docs, |docs|)
  {
    if |docs| > 1 {
      JoinLength(docs[1..]);
      OffsetTail(docs, |docs|);
    }
  }

  /** Each document's text appears verbatim at its offset, in retrieval
      order, followed by a separator unless it is the last one. With
      JoinLength this determines the joined context completely. */
  lemma {:induction false} JoinPieces(docs: seq<Document>, i: nat)
    requires i < |docs|
    ensures OccursAt(JoinContents(docs), docs[i].pageContent, Offset(docs, i))
    ensures i + 1 < |docs| ==>
              OccursAt(JoinContents(docs), Separator, Offset(docs, i) + |docs[i].pageContent|)
  {
    var s := JoinContents(docs);
    var c := docs[0].pageContent;
    if |docs| == 1 {
      assert s[0..|c|] == c;
    } else {
      var head := c + Separator;
      var t := JoinContents(docs[1..]);
      assert s == head + t;
      assert s[..|head|] == head;
      if i == 0 {
        assert s[0..|c|] == c;
        assert s[|c|..|c| + |Separator|] == Separator;
      } else {
        JoinPieces(docs[1..], i - 1);
        OffsetTail(docs, i);
        assert s[|head|..] == t;
        OccursAtShift(s, docs[i].pageContent, |head|, Offset(docs[1..], i - 1));
        if i + 1 < |docs| {
          OccursAtShift(s, Separator, |head|, Offset(docs[1..], i - 1) + |docs[i].pageContent|);
        }
      }
    }
  }

  /** Joining two non-empty lists of documents puts one separator between
      their joined texts. */
  lemma {:induction false} JoinAppend(a: seq<Document>, b: seq<Document>)
    requires a != [] && b != []
    ensures JoinContents(a + b) == JoinContents(a) + Separator + JoinContents(b)
  {
    if |a| == 1 {
      assert (a + b)[1..] == b;
    } else {
      JoinAppend(a[1..], b);
      assert (a + b)[1..] == a[1..] + b;
    }
  }

  /** The context a turn generates against. With no uploaded file the turn
      is a plain conversation and the context is empty. Otherwise the
      retriever is asked for the message; a missing retriever (calling a
      method on None) or a retrieval error is a failure. */
  function TurnContext(pdfPath: Option<string>, retriever: Option<Retriever>, query: string): (r: Result<string, BackendError>)
    ensures pdfPath.None? ==> r == Success("")
    ensures pdfPath.Some? && retriever.None? ==> r.Failure?
    ensures pdfPath.Some? && retriever.Some? ==>
              (r.Success? <==> retriever.value(query).Success?)
    ensures pdfPath.Some? && retriever.Some? && retriever.value(query).Success? ==>
              r == Success(JoinContents(retriever.value(query).value))
  {
    if pdfPath.None? then Success("")
    else
      match retriever
      case None => Failure(BackendError("retriever is None"))
      case Some(retrieve) =>
        match retrieve(query)
        case Failure(e) => Failure(e)
        case Success(docs) => Success(JoinContents(docs))
  }

  /** The answer `_respond` records for a non-blank message: the generated
      answer against the turn's context, or the fixed apology when retrieval
      fails. */
  function RespondAnswer(svc: Service, message: string, turns: seq<Turn>,
                         pdfPath: Option<string>, retriever: Option<Retriever>): (answer: string)
    ensures IsTrimmed(answer)
    ensures pdfPath.None? ==> answer == GenerateResponse(svc, message, "", turns)
    ensures TurnContext(pdfPath, retriever, message).Failure? ==> answer == RetrievalApology
    ensures TurnContext(pdfPath, retriever, message).Success? ==>
              answer == GenerateResponse(svc, message, TurnContext(pdfPath, retriever, message).value, [])
  {
    match TurnContext(pdfPath, retriever, message)
    case Failure(_) =>
      assert RetrievalApology[0] == '抱' && RetrievalApology[|RetrievalApology| - 1] == '。';
      RetrievalApology
    case Success(context) =>
      HistoryIgnored(svc, message, context, turns, []);
      GenerateResponse(svc, message, context, turns)
  }

  /** The turns after `_respond`: a message that is empty or all whitespace
      leaves them as they were; any other message adds exactly one turn at
      the end, holding the message and its answer. */
  function RespondTurns(svc: Service, message: string, turns: seq<Turn>,
                        pdfPath: Option<string>, retriever: Option<Retriever>): (r: seq<Turn>)
    ensures IsBlank(message) ==> r == turns
    ensures !IsBlank(message) ==> |r| == |turns| + 1 && r[..|turns|] == turns
    ensures !IsBlank(message) ==> r[|turns|] == Turn(message, RespondAnswer(svc, message, turns, pdfPath, retriever))
  {
    StripEmptyIffBlank(message);
    if Strip(message) == [] then turns
    else
      var r := turns + [Turn(message, RespondAnswer(svc, message, turns, pdfPath, retriever))];
      assert r[..|turns|] == turns;
      r
  }

  /** The turns after `_regenerate`. Nothing happens to an empty history.
      Otherwise the last turn is dropped and its question answered again
      against the shorter history; when retrieval fails the shorter history
      is what is returned, so the last turn is lost. */
  function RegeneratedTurns(svc: Service, turns: seq<Turn>,
                            pdfPath: Option<string>, retriever: Option<Retriever>): (r: seq<Turn>)
    ensures turns == [] ==> r == []
    ensures turns != [] ==> |turns| - 1 <= |r| <= |turns|
    ensures turns != [] ==> r[..|turns| - 1] == turns[..|turns| - 1]
    ensures turns != [] && TurnContext(pdfPath, retriever, turns[|turns| - 1].user).Failure? ==>
              r == turns[..|turns| - 1]
    ensures turns != [] && TurnContext(pdfPath, retriever, turns[|turns| - 1].user).Success? ==>
              |r| == |turns| && r[|r| - 1].user == turns[|turns| - 1].user
    ensures turns != [] && TurnContext(pdfPath, retriever, turns[|turns| - 1].user).Success? ==>
              var question := turns[|turns| - 1].user;
              r[|r| - 1].assistant
              == GenerateResponse(svc, question, TurnContext(pdfPath, retriever, question).value, turns[..|turns| - 1])
  {
    if turns == [] then turns
    else
      var rest := turns[..|turns| - 1];
      var question := turns[|turns| - 1].user;
      match TurnContext(pdfPath, retriever, question)
      case Failure(_) => rest
      case Success(context) =>
        var r := rest + [Turn(question, GenerateResponse(svc, question, context, rest))];
        assert r[..|turns| - 1] == rest;
        r
  }

  /** The turns a conversation can hold: every question has some
      non-whitespace character and no answer begins or ends with whitespace. */
  predicate WellFormed(turns: seq<Turn>) {
    forall i :: 0 <= i < |turns| ==> !IsBlank(turns[i].user) && IsTrimmed(turns[i].assistant)
  }

  lemma RespondPreservesWellFormed(svc: Service, message: string, turns: seq<Turn>,
                                   pdfPath: Option<string>, retriever: Option<Retriever>)
    requires WellFormed(turns)
    ensures WellFormed(RespondTurns(svc, message, turns, pdfPath, retriever))
  {
    var r := RespondTurns(svc, message, turns, pdfPath, retriever);
    if !IsBlank(message) {
      forall i | 0 <= i < |r| ensures !IsBlank(r[i].user) && IsTrimmed(r[i].assistant) {
        if i < |turns| {
          assert r[i] == r[..|turns|][i];
        }
      }
    }
  }

  lemma RegeneratePreservesWellFormed(svc: Service, turns: seq<Turn>,
                                      pdfPath: Option<string>, retriever: Option<Retriever>)
    requires WellFormed(turns)
    ensures WellFormed(RegeneratedTurns(svc, turns, pdfPath, retriever))
  {
    var r := RegeneratedTurns(svc, turns, pdfPath, retriever);
    if turns != [] {
      var n := |turns| - 1;
      forall i | 0 <= i < |r| ensures !IsBlank(r[i].user) && IsTrimmed(r[i].assistant) {
        if i < n {
          assert r[i] == r[..n][i] == turns[..n][i];
        }
      }
    }
  }

  /** When retrieval succeeds, regenerating is the same as undoing the last
      turn and sending its question again. */
  lemma RegenerateIsUndoThenRespond(svc: Service, turns: seq<Turn>,
                                    pdfPath: Option<string>, retriever: Option<Retriever>)
    requires turns != [] && !IsBlank(turns[|turns| - 1].user)
    requires TurnContext(pdfPath, retriever, turns[|turns| - 1].user).Success?
    ensures RegeneratedTurns(svc, turns, pdfPath, retriever)
            == RespondTurns(svc, turns[|turns| - 1].user, turns[..|turns| - 1], pdfPath, retriever)
  {
    var rest := turns[..|turns| - 1];
    var question := turns[|turns| - 1].user;
    var context := TurnContext(pdfPath, retriever, question).value;
    HistoryIgnored(svc, question, context, rest, []);
    var r := RespondTurns(svc, question, rest, pdfPath, retriever);
    assert r == rest + [r[|rest|]];
  }

  /** Regenerating right after a message was sent gives the same turns when
      retrieval succeeds, and loses the message's turn altogether when it
      fails, since that turn holds only the apology. Both parts hold because
      the backends are fixed functions here, answering a repeated request the
      same way: a model that samples a new answer, or a retriever whose failure
      was temporary, would give a different result. */
  lemma RegenerateAfterRespond(svc: Service, message: string, turns: seq<Turn>,
                               pdfPath: Option<string>, retriever: Option<Retriever>)
    requires !IsBlank(message)
    ensures TurnContext(pdfPath, retriever, message).Success? ==>
              RegeneratedTurns(svc, RespondTurns(svc, message, turns, pdfPath, retriever), pdfPath, retriever)
              == RespondTurns(svc, message, turns, pdfPath, retriever)
    ensures TurnContext(pdfPath, retriever, message).Failure? ==>
              RegeneratedTurns(svc, RespondTurns(svc, message, turns, pdfPath, retriever), pdfPath, retriever)
              == turns
  {
    var r := RespondTurns(svc, message, turns, pdfPath, retriever);
    assert r[|r| - 1].user == message;
    assert r[..|r| - 1] == turns;
    if TurnContext(pdfPath, retriever, message).Success? {
      var context := TurnContext(pdfPath, retriever, message).value;
      HistoryIgnored(svc, message, context, turns, []);
      assert r == turns + [r[|turns|]];
    }
  }

  /** Regenerating twice in a row gives what regenerating once gives,
      provided the backends answer a repeated request the same way, as the
      fixed functions here do. */
  lemma RegenerateIdempotent(svc: Service, turns: seq<Turn>,
                             pdfPath: Option<string>, retriever: Option<Retriever>)
    requires turns != [] && !IsBlank(turns[|turns| - 1].user)
    requires TurnContext(pdfPath, retriever, turns[|turns| - 1].user).Success?
    ensures RegeneratedTurns(svc, RegeneratedTurns(svc, turns, pdfPath, retriever), pdfPath, retriever)
            == RegeneratedTurns(svc, turns, pdfPath, retriever)
  {
    var question := turns[|turns| - 1].user;
    RegenerateIsUndoThenRespond(svc, turns, pdfPath, retriever);
    RegenerateAfterRespond(svc, question, turns[..|turns| - 1], pdfPath, retriever);
  }

  /** The Python list of turns the chat widget holds; `_respond` appends to
      the caller's list in place. */
  class HistoryList {
    var turns: seq<Turn>

    constructor(initial: seq<Turn>)
      ensures turns == initial
    {
      turns := initial;
    }

    /** `list.append`. */
    method Append(t: Turn)
      modifies this
      ensures turns == old(turns) + [t]
    {
      turns := turns + [t];
    }
  }

  /** `_respond`: handles one submitted message. The input box is cleared and
      the same list object is handed back, with at most one turn appended. */
  method Respond(svc: Service, message: string, history: HistoryList,
                 pdfPath: Option<string>, retriever: Option<Retriever>)
    returns (cleared: string, out: HistoryList)
    modifies history
    ensures cleared == "" && out == history
    ensures history.turns == RespondTurns(svc, message, old(history.turns), pdfPath, retriever)
    ensures IsBlank(message) ==> history.turns == old(history.turns)
    ensures !IsBlank(message) ==> history.turns == old(history.turns) + [Turn(message, RespondAnswer(svc, message, old(history.turns), pdfPath, retriever))]
  {
    StripEmptyIffBlank(message);
    if Strip(message) == [] {
      return "", history;
    }
    var response: string;
    if pdfPath.None? {
      response := GenerateResponse(svc, message, "", history.turns);
    } else {
      match retriever
      case None =>
        response := RetrievalApology;
      case Some(retrieve) =>
        var docs := retrieve(message);
        if docs.Failure? {
          response := RetrievalApology;
        } else {
          var context := JoinContents(docs.value);
          response := GenerateResponse(svc, message, context, history.turns);
        }
    }
    history.Append(Turn(message, response));
    return "", history;
  }

  /** `_regenerate`: answers the last question again. An empty history is
      handed back as it is. Otherwise a new list is built from all turns but
      the last and handed back, and the caller's list is left unchanged. */
  method Regenerate(svc: Service, history: HistoryList,
                    pdfPath: Option<string>, retriever: Option<Retriever>)
    returns (result: HistoryList)
    ensures history.turns == [] ==> result == history
    ensures history.turns != [] ==> fresh(result)
    ensures result.turns == RegeneratedTurns(svc, history.turns, pdfPath, retriever)
  {
    if history.turns == [] {
      return history;
    }
    ghost var turns := history.turns;
    var lastUserMessage := history.turns[|history.turns| - 1].user;
    result := new HistoryList(history.turns[..|history.turns| - 1]);
    var context := "";
    if pdfPath.Some? {
      match retriever
      case None =>
        assert TurnContext(pdfPath, retriever, lastUserMessage).Failure?;
        return;
      case Some(retrieve) =>
        var docs := retrieve(lastUserMessage);
        if docs.Failure? {
          assert TurnContext(pdfPath, retriever, lastUserMessage).Failure?;
          return;
        }
        context := JoinContents(docs.value);
    }
    assert TurnContext(pdfPath, retriever, lastUserMessage) == Success(context);
    var response := GenerateResponse(svc, lastUserMessage, context, result.turns);
    assert RegeneratedTurns(svc, turns, pdfPath, retriever)
        == result.turns + [Turn(lastUserMessage, response)];
    result.Append(Turn(lastUserMessage, response));
  }
}
