/** The completion side of src/index.ts: turning the server's inline
    completion items into editor completion items, and the one-entry memo
    (`state`) that keeps the completion provider and the cursor handler from
    asking the server twice for the same place in the same document version.
    Editor types are reduced to the fields the code reads. */
module Completion {
  import opened JsText
  import opened Json
  import opened Framing
  import opened Rpc

  /** A zero-based place in a document. */
  datatype Position = Position(line: int, character: int)

  datatype Range = Range(start: Position, end: Position)

  /** An item of the server's inline completion answer. */
  datatype InlineItem = InlineItem(insertText: JsString, range: Range)

  datatype TextEdit = TextEdit(range: Range, newText: JsString)

  /** An editor completion item; `detail` is None where the code leaves it undefined. */
  datatype CompletionItem = CompletionItem(
    sortText: JsString,
    labelText: JsString,
    detail: Option<JsString>,
    kind: int,
    textEdit: TextEdit)

  /** The identity of a document version: what the memo compares. */
  datatype Document = Document(uri: JsString, version: int)

  /** What `state.lastResults` holds. The provider stores completion items,
      the cursor handler stores the server's items as they came, and either
      may be handed back by the provider on a repeat. */
  datatype Results = Completions(completions: seq<CompletionItem>) | RawInline(raw: seq<InlineItem>)

  /** `CompletionItemKind.Snippet` of the Language Server Protocol. */
  const Snippet: int := 15
  /** `CompletionTriggerKind.Invoked` of the Language Server Protocol. */
  const Invoked: int := 1
  /** The three spaces put in front of every sort text. */
  const SortPrefix: JsString := [32, 32, 32]

  const InlineCompletion: JsString := Lit("textDocument/inlineCompletion")

  // ---------------------------------------------------------------------
  // transformResultsToCompletions

  /** `s.split("\n")[0]`: the text up to the first line feed, or all of it. */
  function FirstLine(s: JsString): (r: JsString)
    ensures |r| <= |s| && r == s[..|r|]
    ensures LF !in r
    ensures |r| < |s| ==> s[|r|] == LF
    decreases |s|
  {
    if s == [] || s[0] == LF then [] else [s[0]] + FirstLine(s[1..])
  }

  /** The first line is the only prefix that stops just before a line feed,
      or at the end, without a line feed in it. */
  lemma FirstLineUnique(s: JsString, p: JsString)
    requires |p| <= |s| && p == s[..|p|] && LF !in p
    requires |p| < |s| ==> s[|p|] == LF
    ensures p == FirstLine(s)
  {
  }

  /** The first line is the whole text exactly when the text has no line feed. */
  lemma FirstLineWhole(s: JsString)
    ensures FirstLine(s) == s <==> LF !in s
  {
    if LF !in s {
      FirstLineUnique(s, s);
    }
  }

  /** The completion item made from one server item. It shows a detail
      exactly when its label is not the whole inserted text, and then the
      detail is that text. The label is the inserted text up to its first
      line feed; the inserted text is what follows the three spaces of the
      sort text, and the edit puts it over the server's range as a snippet. */
  function ToCompletion(item: InlineItem): (c: CompletionItem)
    ensures c.textEdit.newText == item.insertText && c.textEdit.range == item.range
    ensures c.kind == Snippet
    ensures |c.sortText| == |SortPrefix| + |item.insertText| && c.sortText[..|SortPrefix|] == SortPrefix
    ensures c.detail.None? <==> c.labelText == item.insertText
    ensures c.detail.Some? ==> c.detail.value == c.textEdit.newText
    ensures c.sortText[|SortPrefix|..] == c.textEdit.newText
    ensures |c.labelText| <= |c.textEdit.newText| && c.labelText == c.textEdit.newText[..|c.labelText|]
    ensures LF !in c.labelText
    ensures |c.labelText| < |item.insertText| ==> item.insertText[|c.labelText|] == LF
    ensures c.detail.Some? <==> LF in item.insertText
  {
    FirstLineWhole(item.insertText);
    assert (SortPrefix + item.insertText)[|SortPrefix|..] == item.insertText;
    CompletionItem(
      SortPrefix + item.insertText,
      FirstLine(item.insertText),
      if LF in item.insertText then Some(item.insertText) else None,
      Snippet,
      TextEdit(item.range, item.insertText))
  }

  /** transformResultsToCompletions: one completion item per server item, in order. */
  function TransformResults(items: seq<InlineItem>): (r: seq<CompletionItem>)
    ensures |r| == |items|
    ensures forall i :: 0 <= i < |items| ==> r[i] == ToCompletion(items[i])
  {
    if items == [] then [] else [ToCompletion(items[0])] + TransformResults(items[1..])
  }

  /** The transformation works item by item, so it distributes over concatenation. */
  lemma TransformConcat(a: seq<InlineItem>, b: seq<InlineItem>)
    ensures TransformResults(a + b) == TransformResults(a) + TransformResults(b)
  {
    var l, r := TransformResults(a + b), TransformResults(a) + TransformResults(b);
    forall i | 0 <= i < |l| ensures l[i] == r[i] {
      if i < |a| { assert (a + b)[i] == a[i]; } else { assert (a + b)[i] == b[i - |a|]; }
    }
  }

  // ---------------------------------------------------------------------
  // The request both callers send

  /** `{ version, position, textDocument: { uri }, context: { triggerKind } }` */
  function CompletionParams(doc: Document, pos: Position): (v: Json)
    ensures v.JObject?
    ensures Lookup(v.members, Lit("version")) == Some(JNumber(doc.version))
    ensures Lookup(v.members, Lit("textDocument")) == Some(JObject([Member(Lit("uri"), JString(doc.uri))]))
  {
    var position := JObject([Member(Lit("line"), JNumber(pos.line)), Member(Lit("character"), JNumber(pos.character))]);
    var a := Member(Lit("version"), JNumber(doc.version));
    var b := Member(Lit("position"), position);
    var c := Member(Lit("textDocument"), JObject([Member(Lit("uri"), JString(doc.uri))]));
    var d := Member(Lit("context"), JObject([Member(Lit("triggerKind"), JNumber(Invoked))]));
    ParamsLookups(a, b, c, d);
    JObject([a, b, c, d])
  }

  lemma ParamsLookups(a: Member, b: Member, c: Member, d: Member)
    requires a.key == Lit("version") && b.key == Lit("position")
    requires c.key == Lit("textDocument") && d.key == Lit("context")
    ensures Lookup([a, b, c, d], a.key) == Some(a.value)
    ensures Lookup([a, b, c, d], c.key) == Some(c.value)
  {
    assert a.key != b.key by { assert a.key[0] != b.key[0]; }
    assert a.key != c.key by { assert a.key[0] != c.key[0]; }
    assert a.key != d.key by { assert a.key[0] != d.key[0]; }
    assert c.key != d.key by { assert c.key[1] != d.key[1]; }
    assert [a, b, c, d] == [a, b, c] + [d] && [a, b, c] == [a, b] + [c] && [a, b] == [a] + [b] && [a] == [] + [a];
    LookupSnoc([a, b, c], d, a.key);
    LookupSnoc([a, b], c, a.key);
    LookupSnoc([a], b, a.key);
    LookupSnoc([], a, a.key);
    LookupSnoc([a, b, c], d, c.key);
    LookupSnoc([a, b], c, c.key);
  }

  // ---------------------------------------------------------------------
  // The memo

  /** The memo holds the answer for `pos` in `doc` when every compared field matches. */
  predicate Remembers(lastPosition: Position, lastDocument: Document, pos: Position, doc: Document)
    ensures Remembers(lastPosition, lastDocument, pos, doc) <==> lastPosition == pos && lastDocument == doc
  {
    && lastPosition.line == pos.line && lastPosition.character == pos.character
    && lastDocument.uri == doc.uri && lastDocument.version == doc.version
  }

  /** `{ line: cursor[0] - 1, character: cursor[1] - 1 }`: the editor's
      one-based cursor as a zero-based position. */
  function CursorPosition(cursorLine: int, cursorColumn: int): (p: Position)
    ensures p.line + 1 == cursorLine && p.character + 1 == cursorColumn
  {
    Position(cursorLine - 1, cursorColumn - 1)
  }

  /** The initial memo, at line -1 and version -1, remembers no real place:
      neither any zero-based position nor any position of a cursor whose
      line is at least 1. */
  lemma InitialRemembersNothing(pos: Position, doc: Document, cursorLine: int, cursorColumn: int)
    requires pos.line >= 0 && cursorLine >= 1
    ensures !Remembers(Position(-1, -1), Document([], -1), pos, doc)
    ensures !Remembers(Position(-1, -1), Document([], -1), CursorPosition(cursorLine, cursorColumn), doc)
  {
  }

  /** The client sent one inline completion request for `pos` in `doc`,
      under the next id, and registered that id in both maps. */
  twostate predicate AskedServer(client: RpcClient, doc: Document, pos: Position)
    reads client
  {
    && client.requestId == old(client.requestId) + 1
    && client.written == old(client.written) +
         [Frame(client.codec.stringify(Envelope(RequestData(client.requestId, InlineCompletion, CompletionParams(doc, pos)))))]
    && client.resolveMap == old(client.resolveMap)[client.requestId := Resolver(client.requestId)]
    && client.rejectMap == old(client.rejectMap)[client.requestId := Rejecter(client.requestId)]
    && client.invocations == old(client.invocations)
  }

  /** The `state` object of `activate`. */
  class ExtensionState {
    var lastPosition: Position
    var lastResults: Results
    var lastDocument: Document

    constructor ()
      ensures lastPosition == Position(-1, -1)
      ensures lastResults == Completions([])
      ensures lastDocument == Document([], -1)
    {
      lastPosition := Position(-1, -1);
      lastResults := Completions([]);
      lastDocument := Document([], -1);
    }

    /** provideCompletionItems: a repeat returns the stored results and
        sends nothing. Otherwise the request goes out; `reply` is the
        `items` of the answer the request's promise resolves with, None when
        it never resolves (then nothing after the `await` runs). */
    method ProvideCompletionItems(client: RpcClient, doc: Document, pos: Position, reply: Option<seq<InlineItem>>)
      returns (result: Option<Results>)
      requires client.Valid()
      modifies this, client
      ensures client.Valid()
      ensures Remembers(old(lastPosition), old(lastDocument), pos, doc) ==>
        result == Some(old(lastResults)) && unchanged(this) && unchanged(client)
      ensures !Remembers(old(lastPosition), old(lastDocument), pos, doc) ==>
        && AskedServer(client, doc, pos)
        && (reply.None? ==> result.None? && unchanged(this))
        && (reply.Some? ==>
              && result == Some(Completions(TransformResults(reply.value)))
              && lastResults == result.value
              && lastPosition == pos && lastDocument == doc)
    {
      if lastPosition.line == pos.line && lastPosition.character == pos.character
        && lastDocument.uri == doc.uri && lastDocument.version == doc.version
      {
        return Some(lastResults);
      }
      var _ := client.SendRequest(InlineCompletion, CompletionParams(doc, pos));
      if reply.None? {
        return None;
      }
      var items := TransformResults(reply.value);
      lastResults := Completions(items);
      lastPosition := Position(pos.line, pos.character);
      lastDocument := Document(doc.uri, doc.version);
      result := Some(Completions(items));
    }

    /** The handler of `CursorHold` and `CursorHoldI`. `doc` is None when
        the buffer has no document: reading its fields then throws before
        anything is sent. The server's items are stored as they came. */
    method OnCursorHold(client: RpcClient, doc: Option<Document>, cursorLine: int, cursorColumn: int,
                        reply: Option<seq<InlineItem>>)
      requires client.Valid()
      modifies this, client
      ensures client.Valid()
      ensures var pos := CursorPosition(cursorLine, cursorColumn);
        if doc.None? || Remembers(old(lastPosition), old(lastDocument), pos, doc.value) then
          unchanged(this) && unchanged(client)
        else
          && AskedServer(client, doc.value, pos)
          && (reply.None? ==> unchanged(this))
          && (reply.Some? ==>
                lastResults == RawInline(reply.value) && lastPosition == pos && lastDocument == doc.value)
    {
      if doc.None? {
        return;
      }
      var document := doc.value;
      var position := Position(cursorLine - 1, cursorColumn - 1);
      if lastPosition.line == position.line && lastPosition.character == position.character
        && lastDocument.uri == document.uri && lastDocument.version == document.version
      {
        return;
      }
      var _ := client.SendRequest(InlineCompletion, CompletionParams(document, position));
      if reply.None? {
        return;
      }
      lastResults := RawInline(reply.value);
      lastPosition := Position(position.line, position.character);
      lastDocument := Document(document.uri, document.version);
    }
  }
}
