/** The editable surface seen as a flat sequence of inline nodes, the
    detection of the trigger character before the caret, and the two splices
    `selectTipo` and `selectRegistro` perform on it. */
module Editor {
  import opened Wrappers
  import opened Strings
  import opened Seqs

  const Trigger: char := '@'
  const Space: char := ' '

  /** A text node, or the non-editable `<span>` of an inserted token: its
      category (the class suffix) and its visible text. */
  datatype Node = Text(s: string) | Mention(category: string, caption: string)

  type Doc = seq<Node>

  /** The start of the selection. `InText(n, o)`: offset `o` inside text node
      `n`. `Boundary(i)`: the editor element itself is the container, with
      the caret just before child `i` (where `setStartAfter` leaves it). */
  datatype Caret = InText(node: nat, offset: nat) | Boundary(index: nat)

  datatype Surface = Surface(doc: Doc, caret: Caret)

  /** The caret points at a real position of the document. */
  predicate CaretOk(doc: Doc, c: Caret) {
    match c
    case InText(n, off) => n < |doc| && doc[n].Text? && off <= |doc[n].s|
    case Boundary(i) => i <= |doc|
  }

  /** A text node whose text holds the trigger character. */
  predicate HasTrigger(n: Node) {
    n.Text? && Trigger in n.s
  }

  /** `textContent` of one node. */
  function NodeText(n: Node): string {
    match n
    case Text(s) => s
    case Mention(_, caption) => caption
  }

  /** `textContent` of the whole editor. */
  function TextContent(doc: Doc): string {
    if doc == [] then [] else NodeText(doc[0]) + TextContent(doc[1..])
  }

  lemma {:induction false} TextContentAppend(a: Doc, b: Doc)
    ensures TextContent(a + b) == TextContent(a) + TextContent(b)
  {
    if a == [] {
      assert a + b == b;
    } else {
      assert (a + b)[0] == a[0];
      assert (a + b)[1..] == a[1..] + b;
      TextContentAppend(a[1..], b);
    }
  }

  predicate IsMention(n: Node) {
    n.Mention?
  }

  /** The inserted tokens, each as often as it occurs, in document order. */
  function Tokens(doc: Doc): (r: seq<Node>)
    ensures forall n :: n in r <==> n in doc && n.Mention?
    ensures forall n {:trigger multiset(r)[n]} :: multiset(r)[n] == if n.Mention? then multiset(doc)[n] else 0
    ensures Subsequence(r, doc)
  {
    Filter(doc, IsMention)
  }

  // ---------------------------------------------------------------------
  // Trigger detection (the first half of `handleKeyUp`)
  // ---------------------------------------------------------------------

  /** `text.substring(0, cursorPosition)` of the caret's node, when the caret
      sits in a text node; `substring` clamps an offset past the end. */
  function TextBeforeCaret(doc: Doc, c: Caret): (r: Option<string>)
    ensures r.Some? <==> c.InText? && c.node < |doc| && doc[c.node].Text?
    ensures r.Some? ==> IsPrefix(r.value, doc[c.node].s)
    ensures r.Some? ==> |r.value| == if c.offset <= |doc[c.node].s| then c.offset else |doc[c.node].s|
  {
    match c
    case InText(n, off) =>
      if n < |doc| && doc[n].Text? then
        var s := doc[n].s;
        Some(s[..if off <= |s| then off else |s|])
      else None
    case Boundary(_) => None
  }

  /** `q` is the lower-cased text strictly after the last trigger of `before`. */
  ghost predicate QueryOfTrigger(before: string, q: string) {
    exists at :: 0 <= at < |before| && before[at] == Trigger && Trigger !in before[at + 1..]
      && q == ToLower(before[at + 1..])
  }

  /** The query of a trigger session: present exactly when the caret is in a
      text node and a trigger precedes it there. */
  function DetectQuery(doc: Doc, c: Caret): (q: Option<string>)
    ensures q.Some? <==> TextBeforeCaret(doc, c).Some? && Trigger in TextBeforeCaret(doc, c).value
    ensures q.Some? ==> QueryOfTrigger(TextBeforeCaret(doc, c).value, q.value)
  {
    match TextBeforeCaret(doc, c)
    case None => None
    case Some(before) =>
      var at := LastIndexOf(before, Trigger);
      if at == -1 then None
      else
        QueryAfter(before, at);
        Some(ToLower(before[at + 1..]))
  }

  /** The text after a trigger with no trigger after it is a query of it. */
  lemma QueryAfter(before: string, at: int)
    requires 0 <= at < |before| && before[at] == Trigger && Trigger !in before[at + 1..]
    ensures QueryOfTrigger(before, ToLower(before[at + 1..]))
  {
  }

  /** Only one query fits the description: the detector's answer is determined
      by the text before the caret. */
  lemma QueryOfTriggerUnique(before: string, q1: string, q2: string)
    requires QueryOfTrigger(before, q1) && QueryOfTrigger(before, q2)
    ensures q1 == q2
  {
    var a1 :| 0 <= a1 < |before| && before[a1] == Trigger && Trigger !in before[a1 + 1..]
      && q1 == ToLower(before[a1 + 1..]);
    var a2 :| 0 <= a2 < |before| && before[a2] == Trigger && Trigger !in before[a2 + 1..]
      && q2 == ToLower(before[a2 + 1..]);
  }

  // ---------------------------------------------------------------------
  // Splitting the anchor text at its trigger
  // ---------------------------------------------------------------------

  /** The pieces the splice cuts a text into: the text before the last
      trigger, the query after it up to the first space, whether that space
      exists, and what follows the space. */
  datatype TriggerSplit = TriggerSplit(before: string, query: string, hadSpace: bool, rest: string)

  /** What follows the query in the original text. */
  function Tail(sp: TriggerSplit): string {
    if sp.hadSpace then [Space] + sp.rest else []
  }

  /** Puts the pieces back together. */
  function Reassemble(sp: TriggerSplit): string {
    sp.before + ([Trigger] + (sp.query + Tail(sp)))
  }

  /** The trigger is the last one, and the query stops at the first space. */
  ghost predicate ValidSplit(sp: TriggerSplit) {
    && Trigger !in sp.query
    && Space !in sp.query
    && Trigger !in sp.rest
    && (!sp.hadSpace ==> sp.rest == [])
  }

  /** `lastIndexOf('@')`, then `indexOf(' ')` in the text after it. */
  function SplitAtTrigger(t: string): (sp: TriggerSplit)
    requires Trigger in t
    ensures ValidSplit(sp)
    ensures Reassemble(sp) == t
    ensures |sp.before| == LastIndexOf(t, Trigger)
  {
    var at := LastIndexOf(t, Trigger);
    Cut(t, at);
    var after := t[at + 1..];
    var space := IndexOf(after, Space);
    if space == -1 then
      assert after + [] == after;
      TriggerSplit(t[..at], after, false, [])
    else
      Cut(after, space);
      Absent(after, Trigger, space);
      Absent(after, Trigger, space + 1);
      TriggerSplit(t[..at], after[..space], true, after[space + 1..])
  }

  /** Where the pieces of a reassembled text sit. */
  lemma ReassembleParts(sp: TriggerSplit)
    ensures var t := Reassemble(sp);
      var at := |sp.before|;
      && at < |t| && t[..at] == sp.before && t[at] == Trigger
      && t[at + 1..] == sp.query + Tail(sp)
  {
    var t := Reassemble(sp);
    var at := |sp.before|;
    var x := [Trigger] + (sp.query + Tail(sp));
    assert t == sp.before + x;
    assert t[..at] == sp.before;
    assert t[at..] == x;
    assert t[at + 1..] == x[1..];
  }

  /** Where the pieces of a query followed by a space and the rest sit. */
  lemma TailParts(query: string, rest: string)
    ensures var after := query + ([Space] + rest);
      && after[..|query|] == query && after[|query|] == Space
      && after[|query| + 1..] == rest
  {
    var after := query + ([Space] + rest);
    assert after[|query|..] == [Space] + rest;
  }

  /** The split is the only one of its kind: any valid way of reading `t` as
      before + trigger + query + tail is the one `SplitAtTrigger` computes. */
  lemma SplitUnique(t: string, sp: TriggerSplit)
    requires ValidSplit(sp) && Reassemble(sp) == t
    ensures Trigger in t && SplitAtTrigger(t) == sp
  {
    var at := |sp.before|;
    var after := sp.query + Tail(sp);
    ReassembleParts(sp);
    assert Trigger !in Tail(sp);
    assert Trigger !in after;
    LastIndexOfUnique(t, Trigger, at);
    if sp.hadSpace {
      TailParts(sp.query, sp.rest);
      IndexOfUnique(after, Space, |sp.query|);
    } else {
      assert after == sp.query;
    }
  }

  // ---------------------------------------------------------------------
  // The backward scan of `selectTipo` / `selectRegistro`
  // ---------------------------------------------------------------------

  /** Every node of `doc[lo..hi]` is a text node without the trigger. */
  ghost predicate PlainRun(doc: Doc, lo: int, hi: int) {
    && 0 <= lo <= hi <= |doc|
    && forall j :: lo <= j < hi ==> doc[j].Text? && Trigger !in doc[j].s
  }

  /** The first node of the run of adjacent text nodes that ends at `i`:
      where `previousSibling` stops being a text node. */
  ghost function RunStart(doc: Doc, i: int): (lo: int)
    requires -1 <= i < |doc|
    ensures 0 <= lo <= i + 1
    ensures lo == 0 || !doc[lo - 1].Text?
    ensures forall j :: lo <= j <= i ==> doc[j].Text?
    decreases i + 1
  {
    if i == -1 || !doc[i].Text? then i + 1 else RunStart(doc, i - 1)
  }

  /** The `while` loop: from node `i` backwards through adjacent text nodes,
      the first one whose text holds the trigger. */
  function ScanBack(doc: Doc, i: int): (k: Option<nat>)
    requires -1 <= i < |doc|
    ensures k.Some? ==> k.value <= i && HasTrigger(doc[k.value]) && PlainRun(doc, k.value + 1, i + 1)
    ensures k.None? ==> PlainRun(doc, RunStart(doc, i), i + 1)
    decreases i + 1
  {
    if i == -1 || !doc[i].Text? then None
    else if Trigger in doc[i].s then Some(i)
    else ScanBack(doc, i - 1)
  }

  /** The anchor node of a splice, starting from the caret's container. A
      caret on the editor element itself never enters the loop. */
  function FindTriggerNode(doc: Doc, c: Caret): (k: Option<nat>)
    ensures k.Some? ==> c.InText? && k.value <= c.node < |doc|
    ensures k.Some? ==> HasTrigger(doc[k.value]) && PlainRun(doc, k.value + 1, c.node + 1)
    ensures k.None? && c.InText? && c.node < |doc| ==> PlainRun(doc, RunStart(doc, c.node), c.node + 1)
  {
    match c
    case InText(n, _) => if n < |doc| then ScanBack(doc, n) else None
    case Boundary(_) => None
  }

  // ---------------------------------------------------------------------
  // The splices
  // ---------------------------------------------------------------------

  /** What `selectTipo` re-inserts after the trigger: `' ' + remainingText`
      when that text is non-empty. */
  function Kept(sp: TriggerSplit): string {
    if sp.rest != [] then [Space] + sp.rest else []
  }

  /** The nodes `selectTipo` puts in place of the anchor. */
  function TipoNodes(sp: TriggerSplit): Doc {
    [Text(sp.before + [Trigger])] + (if sp.rest == [] then [] else [Text([Space] + sp.rest)])
  }

  /** The nodes `selectRegistro` puts in place of the anchor. */
  function RegistroNodes(sp: TriggerSplit, token: Node): Doc {
    [Text(sp.before), token, Text([Space])] + (if sp.rest == [] then [] else [Text(sp.rest)])
  }

  /** Node `k` replaced by the nodes `selectTipo` builds from the pieces
      `sp`, with the caret just after the trigger. */
  function TipoAt(doc: Doc, k: nat, sp: TriggerSplit): (r: Surface)
    requires k < |doc|
    ensures |r.doc| == |doc| + (if sp.rest == [] then 0 else 1)
    ensures r.doc[..k] == doc[..k]
    ensures r.doc[k] == Text(sp.before + [Trigger])
    ensures sp.rest != [] ==> r.doc[k + 1] == Text([Space] + sp.rest)
    ensures r.doc[|r.doc| - (|doc| - k - 1)..] == doc[k + 1..]
    ensures r.caret == InText(k, |sp.before| + 1) && CaretOk(r.doc, r.caret)
    ensures r.doc[k].s[|sp.before|] == Trigger
  {
    var mid := TipoNodes(sp);
    assert |mid| == if sp.rest == [] then 1 else 2;
    var d := ReplaceAt(doc, k, mid);
    assert |d| - (|doc| - k - 1) == k + |mid|;
    ReplaceAtMid(doc, k, mid, 0);
    assert (sp.before + [Trigger])[|sp.before|] == Trigger;
    if sp.rest == [] then Surface(d, InText(k, |sp.before| + 1))
    else
      ReplaceAtMid(doc, k, mid, 1);
      Surface(d, InText(k, |sp.before| + 1))
  }

  /** `selectTipo` on anchor node `k`: the node keeps its text up to and
      including the trigger, a non-empty remainder comes back as a new text
      node after it, and the caret lands just after the trigger. */
  function SpliceTipo(doc: Doc, k: nat): (r: Surface)
    requires k < |doc| && HasTrigger(doc[k])
    ensures var sp := SplitAtTrigger(doc[k].s);
      && |r.doc| == |doc| + (if sp.rest == [] then 0 else 1)
      && r.doc[..k] == doc[..k]
      && r.doc[k] == Text(sp.before + [Trigger])
      && (sp.rest != [] ==> r.doc[k + 1] == Text([Space] + sp.rest))
      && r.doc[|r.doc| - (|doc| - k - 1)..] == doc[k + 1..]
    ensures CaretOk(r.doc, r.caret) && r.caret.InText? && r.caret.node == k && r.caret.offset > 0
    ensures r.doc[k].s[r.caret.offset - 1] == Trigger
    ensures r.caret.offset == LastIndexOf(doc[k].s, Trigger) + 1
  {
    TipoAt(doc, k, SplitAtTrigger(doc[k].s))
  }

  /** Node `k` replaced by the nodes `selectRegistro` builds from the pieces
      `sp` and the token, with the caret after the space node. */
  function RegistroAt(doc: Doc, k: nat, sp: TriggerSplit, token: Node): (r: Surface)
    requires k < |doc|
    ensures |r.doc| == |doc| + (if sp.rest == [] then 2 else 3)
    ensures r.doc[..k] == doc[..k]
    ensures r.doc[k] == Text(sp.before) && r.doc[k + 1] == token && r.doc[k + 2] == Text([Space])
    ensures sp.rest != [] ==> r.doc[k + 3] == Text(sp.rest)
    ensures r.doc[|r.doc| - (|doc| - k - 1)..] == doc[k + 1..]
    ensures r.caret == Boundary(k + 3) && CaretOk(r.doc, r.caret)
  {
    var mid := RegistroNodes(sp, token);
    assert |mid| == if sp.rest == [] then 3 else 4;
    var d := ReplaceAt(doc, k, mid);
    assert |d| - (|doc| - k - 1) == k + |mid|;
    ReplaceAtMid(doc, k, mid, 0);
    ReplaceAtMid(doc, k, mid, 1);
    ReplaceAtMid(doc, k, mid, 2);
    if sp.rest == [] then Surface(d, Boundary(k + 3))
    else
      ReplaceAtMid(doc, k, mid, 3);
      Surface(d, Boundary(k + 3))
  }

  /** `selectRegistro` on anchor node `k`: the node keeps its text before the
      trigger, then come the token, a one-space text node and a non-empty
      remainder; the caret lands after the space node. */
  function SpliceRegistro(doc: Doc, k: nat, token: Node): (r: Surface)
    requires k < |doc| && HasTrigger(doc[k])
    ensures var sp := SplitAtTrigger(doc[k].s);
      && |r.doc| == |doc| + (if sp.rest == [] then 2 else 3)
      && r.doc[..k] == doc[..k]
      && r.doc[k] == Text(sp.before)
      && r.doc[k + 1] == token
      && r.doc[k + 2] == Text([Space])
      && (sp.rest != [] ==> r.doc[k + 3] == Text(sp.rest))
      && r.doc[|r.doc| - (|doc| - k - 1)..] == doc[k + 1..]
    ensures CaretOk(r.doc, r.caret) && r.caret == Boundary(k + 3)
    ensures r.doc[r.caret.index - 1] == Text([Space]) && r.doc[r.caret.index - 2] == token
  {
    RegistroAt(doc, k, SplitAtTrigger(doc[k].s), token)
  }

  lemma CutNode(doc: Doc, k: nat)
    requires k < |doc|
    ensures doc == doc[..k] + ([doc[k]] + doc[k + 1..])
  {
  }

  lemma TextContentCons(n: Node, rest: Doc)
    ensures TextContent([n] + rest) == NodeText(n) + TextContent(rest)
  {
    assert ([n] + rest)[1..] == rest;
  }

  /** Splits the content around node `k`. */
  lemma TextContentAround(doc: Doc, k: nat, mid: Doc)
    requires k < |doc|
    ensures TextContent(ReplaceAt(doc, k, mid))
      == TextContent(doc[..k]) + (TextContent(mid) + TextContent(doc[k + 1..]))
    ensures TextContent(doc) == TextContent(doc[..k]) + (NodeText(doc[k]) + TextContent(doc[k + 1..]))
  {
    var r := ReplaceAt(doc, k, mid);
    assert r == doc[..k] + (mid + doc[k + 1..]);
    TextContentAppend(doc[..k], mid + doc[k + 1..]);
    TextContentAppend(mid, doc[k + 1..]);
    CutNode(doc, k);
    TextContentAppend(doc[..k], [doc[k]] + doc[k + 1..]);
    TextContentCons(doc[k], doc[k + 1..]);
  }

  /** `selectTipo` deletes the query and nothing else, except that a lone
      space after the query (with nothing behind it) goes too. */
  lemma SpliceTipoText(doc: Doc, k: nat)
    requires k < |doc| && HasTrigger(doc[k])
    ensures var sp := SplitAtTrigger(doc[k].s);
      var pre := TextContent(doc[..k]);
      var post := TextContent(doc[k + 1..]);
      && TextContent(doc) == pre + (Reassemble(sp) + post)
      && TextContent(SpliceTipo(doc, k).doc) == pre + (sp.before + ([Trigger] + Kept(sp)) + post)
      && (sp.rest != [] || !sp.hadSpace ==> Kept(sp) == Tail(sp))
  {
    var sp := SplitAtTrigger(doc[k].s);
    TextContentAround(doc, k, TipoNodes(sp));
    TipoNodesText(sp);
  }

  lemma TipoNodesText(sp: TriggerSplit)
    ensures TextContent(TipoNodes(sp)) == sp.before + ([Trigger] + Kept(sp))
  {
    var tail: Doc := if sp.rest == [] then [] else [Text([Space] + sp.rest)];
    TextContentCons(Text(sp.before + [Trigger]), tail);
    if sp.rest != [] {
      TextContentCons(Text([Space] + sp.rest), []);
    }
  }

  /** `selectRegistro` replaces the trigger and query by the token's text and
      one space; when a space followed the query, that space is the
      separator and the text after it is kept unchanged. */
  lemma SpliceRegistroText(doc: Doc, k: nat, token: Node)
    requires k < |doc| && HasTrigger(doc[k])
    ensures var sp := SplitAtTrigger(doc[k].s);
      var pre := TextContent(doc[..k]);
      var post := TextContent(doc[k + 1..]);
      && TextContent(doc) == pre + (Reassemble(sp) + post)
      && TextContent(SpliceRegistro(doc, k, token).doc)
         == pre + (sp.before + (NodeText(token) + ([Space] + sp.rest)) + post)
      && (sp.hadSpace ==> Tail(sp) == [Space] + sp.rest)
  {
    var sp := SplitAtTrigger(doc[k].s);
    TextContentAround(doc, k, RegistroNodes(sp, token));
    RegistroNodesText(sp, token);
  }

  lemma RegistroNodesText(sp: TriggerSplit, token: Node)
    ensures TextContent(RegistroNodes(sp, token)) == sp.before + (NodeText(token) + ([Space] + sp.rest))
  {
    var tail: Doc := if sp.rest == [] then [] else [Text(sp.rest)];
    assert RegistroNodes(sp, token) == [Text(sp.before)] + ([token] + ([Text([Space])] + tail));
    TextContentCons(Text(sp.before), [token] + ([Text([Space])] + tail));
    TextContentCons(token, [Text([Space])] + tail);
    TextContentCons(Text([Space]), tail);
    if sp.rest != [] {
      TextContentCons(Text(sp.rest), []);
    }
  }

  lemma TokensCons(n: Node, rest: Doc)
    ensures Tokens([n] + rest) == (if n.Mention? then [n] else []) + Tokens(rest)
  {
    assert ([n] + rest)[0] == n;
    assert ([n] + rest)[1..] == rest;
  }

  /** Filters the tokens around node `k`. */
  lemma TokensAround(doc: Doc, k: nat, mid: Doc)
    requires k < |doc|
    ensures Tokens(ReplaceAt(doc, k, mid)) == Tokens(doc[..k]) + (Tokens(mid) + Tokens(doc[k + 1..]))
    ensures Tokens(doc) == Tokens(doc[..k]) + (Tokens([doc[k]]) + Tokens(doc[k + 1..]))
  {
    var r := ReplaceAt(doc, k, mid);
    assert r == doc[..k] + (mid + doc[k + 1..]);
    FilterAppend(doc[..k], mid + doc[k + 1..], IsMention);
    FilterAppend(mid, doc[k + 1..], IsMention);
    CutNode(doc, k);
    FilterAppend(doc[..k], [doc[k]] + doc[k + 1..], IsMention);
    FilterAppend([doc[k]], doc[k + 1..], IsMention);
  }

  /** `selectTipo` neither adds nor removes tokens. */
  lemma SpliceTipoTokens(doc: Doc, k: nat)
    requires k < |doc| && HasTrigger(doc[k])
    ensures Tokens(SpliceTipo(doc, k).doc) == Tokens(doc)
  {
    var sp := SplitAtTrigger(doc[k].s);
    var mid := TipoNodes(sp);
    TokensAround(doc, k, mid);
    var tail: Doc := if sp.rest == [] then [] else [Text([Space] + sp.rest)];
    TokensCons(Text(sp.before + [Trigger]), tail);
    if sp.rest != [] {
      TokensCons(Text([Space] + sp.rest), []);
    }
    TokensCons(doc[k], []);
  }

  /** `selectRegistro` adds exactly its token, after every earlier token and
      before every later one. */
  lemma SpliceRegistroTokens(doc: Doc, k: nat, token: Node)
    requires k < |doc| && HasTrigger(doc[k]) && token.Mention?
    ensures Tokens(doc) == Tokens(doc[..k]) + Tokens(doc[k + 1..])
    ensures Tokens(SpliceRegistro(doc, k, token).doc) == Tokens(doc[..k]) + ([token] + Tokens(doc[k + 1..]))
    ensures |Tokens(SpliceRegistro(doc, k, token).doc)| == |Tokens(doc)| + 1
  {
    var sp := SplitAtTrigger(doc[k].s);
    var mid := RegistroNodes(sp, token);
    SpliceRegistroIsReplace(doc, k, token);
    TokensAround(doc, k, mid);
    RegistroNodesTokens(sp, token);
    TokensOfText(doc[k]);
    var pre, post := Tokens(doc[..k]), Tokens(doc[k + 1..]);
    assert Tokens(doc) == pre + ([] + post);
    assert [] + post == post;
  }

  lemma SpliceRegistroIsReplace(doc: Doc, k: nat, token: Node)
    requires k < |doc| && HasTrigger(doc[k])
    ensures SpliceRegistro(doc, k, token).doc == ReplaceAt(doc, k, RegistroNodes(SplitAtTrigger(doc[k].s), token))
  {
  }

  lemma TokensOfText(n: Node)
    requires n.Text?
    ensures Tokens([n]) == []
  {
    TokensCons(n, []);
    assert [n] + [] == [n];
  }

  lemma RegistroNodesTokens(sp: TriggerSplit, token: Node)
    requires token.Mention?
    ensures Tokens(RegistroNodes(sp, token)) == [token]
  {
    var tail: Doc := if sp.rest == [] then [] else [Text(sp.rest)];
    assert RegistroNodes(sp, token) == [Text(sp.before)] + ([token] + ([Text([Space])] + tail));
    TokensCons(Text(sp.before), [token] + ([Text([Space])] + tail));
    TokensCons(token, [Text([Space])] + tail);
    TokensCons(Text([Space]), tail);
    if sp.rest != [] {
      TokensCons(Text(sp.rest), []);
    }
  }
}
