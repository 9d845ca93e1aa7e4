/** The live preview: `latexToHast`, a visitor over a parsed LaTeX tree that builds an
    HTML tree (HAST) for a handful of constructs, and the `LivePreview` component that
    turns any failure of parsing or building into a failure panel.

    The visitor keeps an explicit stack of open containers seeded with the root and
    appends every new element to the container on top. In the page the list element is
    pushed both onto its parent's children and onto the stack, so the two references
    alias; here each open container is a `Frame` value that is closed into its parent
    when its environment is left. The parent receives no other child while the list is
    open, so the finished tree is the same; `View` shows the tree as the page's root
    object holds it at any moment. */
module Preview {
  import opened Wrappers
  import opened Text

  // ---------------------------------------------------------------------------------
  // The parsed LaTeX tree and the HTML tree
  // ---------------------------------------------------------------------------------

  /** The nodes of the parsed LaTeX tree. */
  datatype LNode =
    | Root(body: seq<LNode>)
    | Str(text: string)
    | Whitespace
    | Parbreak
    | Comment(text: string)
    | Verbatim(env: string, text: string)
    | Macro(name: string, args: MacroArgs, contentAfterMacro: Option<string>)
    | Environment(env: string, body: seq<LNode>)
    | Group(body: seq<LNode>)
    | InlineMath(body: seq<LNode>)
    | DisplayMath(body: seq<LNode>)

  /** A macro's `args` field: absent, or a list of arguments. */
  datatype MacroArgs = NoArgs | Args(list: seq<Arg>)

  datatype Arg = Arg(content: seq<LNode>)

  /** An element of the HTML tree: its tag, its `className`, the markup set through
      `dangerouslySetInnerHTML` (an element carrying it has no children), and its
      children; or a text node. */
  datatype Hast =
    | Element(tagName: string, className: Option<string>, innerHtml: Option<string>, children: seq<Hast>)
    | Text(value: string)

  /** The math typesetter, `katex.renderToString(content, {displayMode})`: markup, or the
      message of the error it raised. */
  type Katex = (seq<LNode>, bool) -> Result<string, string>

  /** Which children the library's `visit` walks besides the content of the root,
      environments and groups: the arguments of macros, and the content of math nodes. */
  datatype Descent = Descent(intoArgs: bool, intoMath: bool)

  // ---------------------------------------------------------------------------------
  // Text of arguments
  // ---------------------------------------------------------------------------------

  /** `[object Object]` repeated `k` times with commas between, the `toString()` of an
      array of `k` node objects. */
  function ObjectList(k: nat): (r: string)
    ensures k == 0 <==> r == []
  {
    if k == 0 then "" else if k == 1 then "[object Object]" else ObjectList(k - 1) + ",[object Object]"
  }

  /** What a node's `content` field contributes to `join('')`: the text of a string,
      comment or verbatim node, the name of a macro, nothing for whitespace and paragraph
      breaks (which have no `content`), and the array's string form for a node whose
      `content` is an array of nodes. */
  function ContentText(c: LNode): string {
    match c
    case Str(t) => t
    case Comment(t) => t
    case Verbatim(_, t) => t
    case Macro(name, _, _) => name
    case Whitespace => ""
    case Parbreak => ""
    case Root(body) => ObjectList(|body|)
    case Environment(_, body) => ObjectList(|body|)
    case Group(body) => ObjectList(|body|)
    case InlineMath(body) => ObjectList(|body|)
    case DisplayMath(body) => ObjectList(|body|)
  }

  /** `nodes.map(c => c.content).join('')`. */
  function NodesText(nodes: seq<LNode>): string {
    if nodes == [] then "" else NodesText(nodes[..|nodes| - 1]) + ContentText(nodes[|nodes| - 1])
  }

  /** `args.map(arg => arg.content.map(c => c.content).join('')).join('')`. */
  function ArgsText(args: seq<Arg>): string {
    if args == [] then "" else ArgsText(args[..|args| - 1]) + NodesText(args[|args| - 1].content)
  }

  /** `node.args?.[0]?.content?.map(c => c.content).join('') || ''`. */
  function FirstArgText(args: MacroArgs): string {
    if args.NoArgs? || args.list == [] then "" else NodesText(args.list[0].content)
  }

  /** `join('')` over two runs of nodes is the join of the first run, then the second. */
  lemma {:induction false} NodesTextAppend(a: seq<LNode>, b: seq<LNode>)
    ensures NodesText(a + b) == NodesText(a) + NodesText(b)
    decreases |b|
  {
    if b == [] {
      assert a + b == a;
    } else {
      var b', last := b[..|b| - 1], b[|b| - 1];
      assert a + b == (a + b') + [last] && b == b' + [last];
      NodesTextAppend(a, b');
      NodesTextSnoc(a + b', last);
      NodesTextSnoc(b', last);
      ConcatAssoc(NodesText(a), NodesText(b'), ContentText(last));
    }
  }

  lemma NodesTextSnoc(ns: seq<LNode>, n: LNode)
    ensures NodesText(ns + [n]) == NodesText(ns) + ContentText(n)
  {
    assert (ns + [n])[..|ns|] == ns;
  }

  /** A run of string nodes contributes its strings, joined in order. */
  lemma {:induction false} StringsJoin(ts: seq<string>)
    ensures NodesText(seq(|ts|, i requires 0 <= i < |ts| => Str(ts[i]))) == Concat(ts)
    decreases |ts|
  {
    if ts != [] {
      var ns := seq(|ts|, i requires 0 <= i < |ts| => Str(ts[i]));
      var ts' := ts[..|ts| - 1];
      assert ns[..|ns| - 1] == seq(|ts'|, i requires 0 <= i < |ts'| => Str(ts'[i]));
      StringsJoin(ts');
    }
  }

  /** The arguments' text over two runs of arguments is the first run's, then the second's. */
  lemma {:induction false} ArgsTextAppend(a: seq<Arg>, b: seq<Arg>)
    ensures ArgsText(a + b) == ArgsText(a) + ArgsText(b)
    decreases |b|
  {
    if b == [] {
      assert a + b == a;
    } else {
      var b', last := b[..|b| - 1], b[|b| - 1];
      assert a + b == (a + b') + [last] && b == b' + [last];
      ArgsTextAppend(a, b');
      ArgsTextSnoc(a + b', last);
      ArgsTextSnoc(b', last);
      ConcatAssoc(ArgsText(a), ArgsText(b'), NodesText(last.content));
    }
  }

  lemma ArgsTextSnoc(args: seq<Arg>, arg: Arg)
    ensures ArgsText(args + [arg]) == ArgsText(args) + NodesText(arg.content)
  {
    assert (args + [arg])[..|args|] == args;
  }

  /** The first argument's text that headings and emphasis show is where the text of all
      the arguments, which title fields and items use, begins. */
  lemma FirstArgTextOpensArgsText(args: MacroArgs)
    requires args.Args? && args.list != []
    ensures ArgsText(args.list) == FirstArgText(args) + ArgsText(args.list[1..])
  {
    var l := args.list;
    assert l == [l[0]] + l[1..];
    var first := NodesText(l[0].content);
    ArgsTextAppend([l[0]], l[1..]);
    assert [] + [l[0]] == [l[0]];
    ArgsTextSnoc([], l[0]);
    assert ArgsText([]) + first == first;
    assert FirstArgText(args) == first;
  }

  /** The text of an `\item`: the arguments' text, or else the trimmed text after the
      macro, or else nothing; trimmed once more at the end. */
  function ItemText(args: MacroArgs, after: Option<string>): string {
    var fromArgs := if args.Args? then ArgsText(args.list) else "";
    if fromArgs != "" then Trim(fromArgs)
    else if after.Some? then Trim(Trim(after.value))
    else Trim("")
  }

  /** An item's text is its arguments' text when that is non-empty and otherwise the
      text after the macro, trimmed either way; the second trim changes nothing. */
  lemma ItemTextMeaning(args: MacroArgs, after: Option<string>)
    ensures var r := ItemText(args, after);
      (r == [] || (!IsJsSpace(r[0]) && !IsJsSpace(r[|r| - 1]))) &&
      (args.Args? && ArgsText(args.list) != "" ==> r == Trim(ArgsText(args.list))) &&
      ((args.NoArgs? || ArgsText(args.list) == "") ==> r == (if after.Some? then Trim(after.value) else ""))
  {
    if args.Args? && ArgsText(args.list) != "" {
    } else if after.Some? {
      TrimIdempotent(after.value);
    } else {
    }
  }

  // ---------------------------------------------------------------------------------
  // The builder's state
  // ---------------------------------------------------------------------------------

  /** An open container: the root or a list whose environment has not been left yet. */
  datatype Frame = Frame(tagName: string, children: seq<Hast>)

  /** The visitor's state: the stack of open containers, root first, and the table of
      title, author and date. */
  datatype State = State(stack: seq<Frame>, titleData: map<string, string>)

  const RootTag: string := "root"

  const Initial: State := State([Frame(RootTag, [])], map[])

  function Top(st: State): Frame
    requires |st.stack| > 0
  {
    st.stack[|st.stack| - 1]
  }

  /** A closed container as an element. */
  function Close(f: Frame): Hast {
    Element(f.tagName, None, None, f.children)
  }

  /** `currentEnv.children.push(e)`. */
  function AppendChild(st: State, e: Hast): (r: State)
    requires |st.stack| > 0
    ensures |r.stack| == |st.stack| && r.titleData == st.titleData
    ensures r.stack[..|st.stack| - 1] == st.stack[..|st.stack| - 1]
    ensures Top(r) == Top(st).(children := Top(st).children + [e])
  {
    var n := |st.stack|;
    st.(stack := st.stack[..n - 1] + [Top(st).(children := Top(st).children + [e])])
  }

  /** `environmentStack.pop()`, with the popped list closed into its parent. */
  function PopFrame(st: State): (r: State)
    requires |st.stack| >= 2
    ensures |r.stack| == |st.stack| - 1 && r.titleData == st.titleData
    ensures r.stack[..|r.stack| - 1] == st.stack[..|st.stack| - 2]
    ensures Top(r) == st.stack[|st.stack| - 2].(children := st.stack[|st.stack| - 2].children + [Close(Top(st))])
  {
    var n := |st.stack|;
    var parent := st.stack[n - 2];
    st.(stack := st.stack[..n - 2] + [parent.(children := parent.children + [Close(Top(st))])])
  }

  /** The children of the root as the page's root object holds them: every open
      container is already in place, as the last child of the container below it. */
  function View(stack: seq<Frame>): seq<Hast>
    requires |stack| > 0
    decreases |stack|
  {
    if |stack| == 1 then stack[0].children
    else
      var n := |stack|;
      var parent := stack[n - 2];
      View(stack[..n - 2] + [parent.(children := parent.children + [Close(stack[n - 1])])])
  }

  /** `b` is `a` after some walking at the same depth: the containers below the top are
      untouched and the top one has only gained children. */
  predicate Extends(a: State, b: State) {
    |a.stack| > 0 && |b.stack| == |a.stack| &&
    b.stack[..|a.stack| - 1] == a.stack[..|a.stack| - 1] &&
    Top(b).tagName == Top(a).tagName &&
    |Top(a).children| <= |Top(b).children| &&
    Top(b).children[..|Top(a).children|] == Top(a).children
  }

  lemma ExtendsTransitive(a: State, b: State, c: State)
    requires Extends(a, b) && Extends(b, c)
    ensures Extends(a, c)
  {
    assert Top(c).children[..|Top(a).children|] == Top(c).children[..|Top(b).children|][..|Top(a).children|];
  }

  // ---------------------------------------------------------------------------------
  // The visitor's callbacks
  // ---------------------------------------------------------------------------------

  predicate IsTitleField(name: string) {
    name == "title" || name == "author" || name == "date"
  }

  predicate IsListEnvironment(n: LNode) {
    n.Environment? && (n.env == "itemize" || n.env == "enumerate")
  }

  function ListTag(env: string): string {
    if env == "itemize" then "ul" else "ol"
  }

  /** `titleData[key] || ''`. */
  function TitleField(titleData: map<string, string>, key: string): string {
    if key in titleData then titleData[key] else ""
  }

  /** The block `\maketitle` emits. */
  function TitleBlock(titleData: map<string, string>): Hast {
    Element("div", Some("maketitle"), None, [
      Element("h1", None, None, [Text(TitleField(titleData, "title"))]),
      Element("p", Some("author"), None, [Text(TitleField(titleData, "author"))]),
      Element("p", Some("date"), None, [Text(TitleField(titleData, "date"))])])
  }

  /** The block is a `maketitle` div of a heading, an author line and a date line, each
      showing its field from the table, or nothing when the field was never set. */
  lemma TitleBlockShowsFields(titleData: map<string, string>)
    ensures var b := TitleBlock(titleData);
      b.Element? && b.className == Some("maketitle") && |b.children| == 3 &&
      b.children[0].tagName == "h1" && b.children[1].className == Some("author") &&
      b.children[2].className == Some("date") &&
      b.children[0].children == [Text(if "title" in titleData then titleData["title"] else "")] &&
      b.children[1].children == [Text(if "author" in titleData then titleData["author"] else "")] &&
      b.children[2].children == [Text(if "date" in titleData then titleData["date"] else "")]
  {
  }

  /** The span a math node becomes: the typeset markup, or the error message in red. */
  function MathSpan(rendered: Result<string, string>): Hast {
    match rendered
    case Ok(html) => Element("span", None, Some(html), [])
    case Err(message) => Element("span", Some("text-red-400"), None, [Text(message)])
  }

  /** The message of the `TypeError` raised by `node.args.map` when a `\title`,
      `\author` or `\date` macro has no `args` (the V8 wording). */
  const MissingArgsError: string := "Cannot read properties of undefined (reading 'map')"

  /** The `enter` callback: the new state, or the message of the exception it raises. */
  function EnterNode(st: State, n: LNode, katex: Katex): (r: Result<State, string>)
    requires |st.stack| > 0
    ensures r.Err? ==> r.error == MissingArgsError
    ensures r.Ok? && IsListEnvironment(n) ==> r.value == st.(stack := st.stack + [Frame(ListTag(n.env), [])])
    ensures r.Ok? && !IsListEnvironment(n) ==> |r.value.stack| == |st.stack|
  {
    match n
    case Macro(name, args, after) =>
      if IsTitleField(name) then
        if args.NoArgs? then Err(MissingArgsError)
        else Ok(st.(titleData := st.titleData[name := ArgsText(args.list)]))
      else if name == "maketitle" then Ok(AppendChild(st, TitleBlock(st.titleData)))
      else if name == "section" || name == "subsection" then
        Ok(AppendChild(st, Element(if name == "section" then "h2" else "h3", None, None, [Text(FirstArgText(args))])))
      else if name == "textbf" || name == "textit" then
        Ok(AppendChild(st, Element(if name == "textbf" then "strong" else "em", None, None, [Text(FirstArgText(args))])))
      else if name == "item" then
        Ok(AppendChild(st, Element("li", None, None, [Text(ItemText(args, after))])))
      else Ok(st)
    case Str(t) =>
      if Trim(t) != "" then Ok(AppendChild(st, Element("p", None, None, [Text(Trim(t))]))) else Ok(st)
    case InlineMath(body) => Ok(AppendChild(st, MathSpan(katex(body, false))))
    case DisplayMath(body) => Ok(AppendChild(st, MathSpan(katex(body, true))))
    case Environment(env, _) =>
      if IsListEnvironment(n) then Ok(st.(stack := st.stack + [Frame(ListTag(env), [])])) else Ok(st)
    case _ => Ok(st)
  }

  /** The `leave` callback. */
  function LeaveNode(st: State, n: LNode): (r: State)
    requires |st.stack| > 0 && (IsListEnvironment(n) ==> |st.stack| >= 2)
  {
    if IsListEnvironment(n) then PopFrame(st) else st
  }

  // ---------------------------------------------------------------------------------
  // The walk
  // ---------------------------------------------------------------------------------

  /** `visit`: `enter` on the node, a walk of its children, `leave` on the node; an
      exception abandons the walk. */
  function WalkNode(st: State, n: LNode, d: Descent, katex: Katex): (r: Result<State, string>)
    requires |st.stack| > 0
    ensures r.Ok? ==> Extends(st, r.value)
    ensures r.Err? ==> r.error == MissingArgsError
    decreases n, 1
  {
    match EnterNode(st, n, katex)
    case Err(m) => Err(m)
    case Ok(entered) =>
      match WalkChildren(entered, n, d, katex)
      case Err(m) => Err(m)
      case Ok(walked) =>
        LeaveExtends(st, entered, walked, n, katex);
        Ok(LeaveNode(walked, n))
  }

  /** Leaving a node after walking its children keeps the depth it was entered at. */
  lemma LeaveExtends(st: State, entered: State, walked: State, n: LNode, katex: Katex)
    requires |st.stack| > 0 && EnterNode(st, n, katex) == Ok(entered) && Extends(entered, walked)
    ensures |walked.stack| > 0 && (IsListEnvironment(n) ==> |walked.stack| >= 2)
    ensures Extends(st, LeaveNode(walked, n))
  {
    if IsListEnvironment(n) {
      assert walked.stack[..|st.stack|] == entered.stack[..|st.stack|];
    } else {
      ExtendsTransitive(st, entered, walked);
    }
  }

  /** The children `visit` walks under a node. */
  function WalkChildren(st: State, n: LNode, d: Descent, katex: Katex): (r: Result<State, string>)
    requires |st.stack| > 0
    ensures r.Ok? ==> Extends(st, r.value)
    ensures r.Err? ==> r.error == MissingArgsError
    decreases n, 0
  {
    match n
    case Macro(_, args, _) =>
      if d.intoArgs && args.Args? then WalkArgs(st, args.list, d, katex) else Ok(st)
    case Root(body) => WalkSeq(st, body, d, katex)
    case Environment(_, body) => WalkSeq(st, body, d, katex)
    case Group(body) => WalkSeq(st, body, d, katex)
    case InlineMath(body) => if d.intoMath then WalkSeq(st, body, d, katex) else Ok(st)
    case DisplayMath(body) => if d.intoMath then WalkSeq(st, body, d, katex) else Ok(st)
    case _ => Ok(st)
  }

  /** The children walked in order. */
  function WalkSeq(st: State, ns: seq<LNode>, d: Descent, katex: Katex): (r: Result<State, string>)
    requires |st.stack| > 0
    ensures r.Ok? ==> Extends(st, r.value)
    ensures r.Err? ==> r.error == MissingArgsError
    decreases ns
  {
    if ns == [] then Ok(st)
    else
      match WalkSeq(st, ns[..|ns| - 1], d, katex)
      case Err(m) => Err(m)
      case Ok(s1) =>
        var r := WalkNode(s1, ns[|ns| - 1], d, katex);
        if r.Ok? then ExtendsTransitive(st, s1, r.value); r else r
  }

  /** The macro arguments walked in order, each argument's content in order. */
  function WalkArgs(st: State, args: seq<Arg>, d: Descent, katex: Katex): (r: Result<State, string>)
    requires |st.stack| > 0
    ensures r.Ok? ==> Extends(st, r.value)
    ensures r.Err? ==> r.error == MissingArgsError
    decreases args
  {
    if args == [] then Ok(st)
    else
      match WalkArgs(st, args[..|args| - 1], d, katex)
      case Err(m) => Err(m)
      case Ok(s1) =>
        var r := WalkSeq(s1, args[|args| - 1].content, d, katex);
        if r.Ok? then ExtendsTransitive(st, s1, r.value); r else r
  }

  /** An exception ends the walk of a sequence: once a prefix fails, the whole fails
      with the same message. */
  lemma {:induction false} WalkSeqFailureSticks(st: State, ns: seq<LNode>, k: nat, d: Descent, katex: Katex)
    requires |st.stack| > 0 && k <= |ns| && WalkSeq(st, ns[..k], d, katex).Err?
    ensures WalkSeq(st, ns, d, katex) == WalkSeq(st, ns[..k], d, katex)
    decreases |ns| - k
  {
    if k < |ns| {
      var pre := ns[..|ns| - 1];
      assert pre[..k] == ns[..k];
      WalkSeqFailureSticks(st, pre, k, d, katex);
    } else {
      assert ns[..k] == ns;
    }
  }

  lemma {:induction false} WalkArgsFailureSticks(st: State, args: seq<Arg>, k: nat, d: Descent, katex: Katex)
    requires |st.stack| > 0 && k <= |args| && WalkArgs(st, args[..k], d, katex).Err?
    ensures WalkArgs(st, args, d, katex) == WalkArgs(st, args[..k], d, katex)
    decreases |args| - k
  {
    if k < |args| {
      var pre := args[..|args| - 1];
      assert pre[..k] == args[..k];
      WalkArgsFailureSticks(st, pre, k, d, katex);
    } else {
      assert args[..k] == args;
    }
  }

  /** `latexToHast`: the children of the root after the walk, or the message of the
      exception that abandoned it. */
  function LatexToHast(tree: LNode, d: Descent, katex: Katex): (r: Result<seq<Hast>, string>)
    ensures r.Err? ==> r.error == MissingArgsError
  {
    match WalkNode(Initial, tree, d, katex)
    case Err(m) => Err(m)
    case Ok(s) => Ok(Top(s).children)
  }

  /** What `LivePreview` shows: the rendered tree, or the failure panel with the
      message of whatever was raised while parsing or building. */
  datatype Rendering = Rendered(content: seq<Hast>) | PreviewFailed(message: string)

  function PreviewOf(parsed: Result<LNode, string>, d: Descent, katex: Katex): Rendering {
    match parsed
    case Err(m) => PreviewFailed(m)
    case Ok(tree) =>
      match LatexToHast(tree, d, katex)
      case Err(m) => PreviewFailed(m)
      case Ok(content) => Rendered(content)
  }

  // ---------------------------------------------------------------------------------
  // What each callback does
  // ---------------------------------------------------------------------------------

  /** Entering `itemize` or `enumerate` opens one new `ul` or `ol` on top of the stack;
      in the tree the root holds, that is exactly one empty list appended to the current
      container. */
  lemma EnterListOpensContainer(st: State, env: string, body: seq<LNode>, katex: Katex)
    requires |st.stack| > 0 && (env == "itemize" || env == "enumerate")
    ensures var r := EnterNode(st, Environment(env, body), katex);
      r.Ok? && r.value.stack == st.stack + [Frame(if env == "itemize" then "ul" else "ol", [])] &&
      View(r.value.stack) == View(AppendChild(st, Element(ListTag(env), None, None, [])).stack)
  {
    var pushed := st.stack + [Frame(ListTag(env), [])];
    assert pushed[..|pushed| - 2] + [Top(st).(children := Top(st).children + [Close(Frame(ListTag(env), []))])]
        == AppendChild(st, Element(ListTag(env), None, None, [])).stack;
  }

  /** Leaving a list pops it, and the tree the root holds does not change. */
  lemma LeaveKeepsView(st: State, n: LNode)
    requires |st.stack| >= 2 && IsListEnvironment(n)
    ensures |LeaveNode(st, n).stack| == |st.stack| - 1
    ensures View(LeaveNode(st, n).stack) == View(st.stack)
  {
  }

  /** `\section` and `\subsection` append an `h2` or `h3`, `\textbf` and `\textit` a
      `strong` or `em`, holding the first argument's text, or nothing when there is no
      argument; the stack and the title table stay as they are. */
  lemma HeadingsAndEmphasis(st: State, name: string, args: MacroArgs, after: Option<string>, katex: Katex)
    requires |st.stack| > 0
    requires name == "section" || name == "subsection" || name == "textbf" || name == "textit"
    ensures var r := EnterNode(st, Macro(name, args, after), katex);
      var tag := match name case "section" => "h2" case "subsection" => "h3" case "textbf" => "strong" case _ => "em";
      r.Ok? && r.value.titleData == st.titleData &&
      r.value.stack == st.stack[..|st.stack| - 1] +
        [Top(st).(children := Top(st).children + [Element(tag, None, None, [Text(FirstArgText(args))])])]
    ensures args.NoArgs? || args.list == [] ==> FirstArgText(args) == ""
  {
  }

  /** `\title`, `\author` and `\date` emit nothing: they record their arguments' text
      under their own name, overwriting an earlier entry. Without arguments they raise. */
  lemma TitleFieldsOnlyRecord(st: State, name: string, args: MacroArgs, after: Option<string>, katex: Katex)
    requires |st.stack| > 0 && IsTitleField(name)
    ensures var r := EnterNode(st, Macro(name, args, after), katex);
      (args.NoArgs? <==> r.Err?) &&
      (r.Ok? ==> r.value.stack == st.stack && r.value.titleData == st.titleData[name := ArgsText(args.list)])
  {
  }

  /** When arguments are not descended into, walking `\title`, `\author` or `\date` with
      arguments only records them. */
  lemma WalkRecordsTitleField(st: State, name: string, args: seq<Arg>, after: Option<string>, d: Descent, katex: Katex)
    requires |st.stack| > 0 && IsTitleField(name) && !d.intoArgs
    ensures WalkNode(st, Macro(name, Args(args), after), d, katex)
         == Ok(st.(titleData := st.titleData[name := ArgsText(args)]))
  {
  }

  /** Walking `\maketitle` appends the block built from the table as it stands, and only
      that. */
  lemma WalkMaketitle(st: State, after: Option<string>, d: Descent, katex: Katex)
    requires |st.stack| > 0 && !d.intoArgs
    ensures WalkNode(st, Macro("maketitle", NoArgs, after), d, katex) == Ok(AppendChild(st, TitleBlock(st.titleData)))
  {
  }

  /** Walking one more node continues from where the walk of the others ended. */
  lemma WalkSeqSnoc(st: State, ns: seq<LNode>, n: LNode, s: State, d: Descent, katex: Katex)
    requires |st.stack| > 0 && WalkSeq(st, ns, d, katex) == Ok(s)
    ensures WalkSeq(st, ns + [n], d, katex) == WalkNode(s, n, d, katex)
  {
    assert (ns + [n])[..|ns|] == ns;
  }

  /** With two `\title`s before `\maketitle`, the heading shows the later one: the
      block reads the table as it stands when `\maketitle` is met. */
  lemma MaketitleShowsLatestTitle(st: State, first: seq<Arg>, second: seq<Arg>, d: Descent, katex: Katex)
    requires |st.stack| > 0 && !d.intoArgs
    ensures var latest := st.(titleData := st.titleData["title" := ArgsText(second)]);
      WalkSeq(st, [Macro("title", Args(first), None), Macro("title", Args(second), None),
                   Macro("maketitle", NoArgs, None)], d, katex) == Ok(AppendChild(latest, TitleBlock(latest.titleData)))
    ensures TitleBlock(st.titleData["title" := ArgsText(second)]).children[0] == Element("h1", None, None, [Text(ArgsText(second))])
  {
    var t1 := Macro("title", Args(first), None);
    var t2 := Macro("title", Args(second), None);
    var mk := Macro("maketitle", NoArgs, None);
    var s1 := st.(titleData := st.titleData["title" := ArgsText(first)]);
    var s2 := st.(titleData := st.titleData["title" := ArgsText(second)]);
    WalkRecordsTitleField(st, "title", first, None, d, katex);
    WalkRecordsTitleField(s1, "title", second, None, d, katex);
    assert s1.(titleData := s1.titleData["title" := ArgsText(second)]) == s2;
    WalkMaketitle(s2, None, d, katex);
    assert [] + [t1] == [t1] && [t1] + [t2] == [t1, t2] && [t1, t2] + [mk] == [t1, t2, mk];
    WalkSeqSnoc(st, [], t1, st, d, katex);
    WalkSeqSnoc(st, [t1], t2, s1, d, katex);
    WalkSeqSnoc(st, [t1, t2], mk, s2, d, katex);
  }

  /** `\item` appends one `li` whose text has no whitespace at either end. */
  lemma ItemAppendsListEntry(st: State, args: MacroArgs, after: Option<string>, katex: Katex)
    requires |st.stack| > 0
    ensures var r := EnterNode(st, Macro("item", args, after), katex);
      var t := ItemText(args, after);
      r.Ok? && r.value == AppendChild(st, Element("li", None, None, [Text(t)])) &&
      (t == [] || (!IsJsSpace(t[0]) && !IsJsSpace(t[|t| - 1])))
  {
    ItemTextMeaning(args, after);
  }

  /** A string node adds a paragraph with its trimmed, non-empty text exactly when it
      holds something other than whitespace. */
  lemma StringAddsParagraph(st: State, t: string, katex: Katex)
    requires |st.stack| > 0
    ensures AllSpace(t) ==> EnterNode(st, Str(t), katex) == Ok(st)
    ensures !AllSpace(t) ==>
      EnterNode(st, Str(t), katex) == Ok(AppendChild(st, Element("p", None, None, [Text(Trim(t))]))) &&
      Trim(t) != [] && !IsJsSpace(Trim(t)[0]) && !IsJsSpace(Trim(t)[|Trim(t)| - 1])
  {
  }

  /** A math node never raises: it appends one `span`, holding the typeset markup, or the
      typesetter's message in red; display mode is asked for exactly for display math. */
  lemma MathNeverAborts(st: State, n: LNode, katex: Katex)
    requires |st.stack| > 0 && (n.InlineMath? || n.DisplayMath?)
    ensures var r := EnterNode(st, n, katex);
      r.Ok? && r.value == AppendChild(st, MathSpan(katex(n.body, n.DisplayMath?)))
    ensures katex(n.body, n.DisplayMath?).Err? ==>
      MathSpan(katex(n.body, n.DisplayMath?)) ==
        Element("span", Some("text-red-400"), None, [Text(katex(n.body, n.DisplayMath?).error)])
  {
  }

  /** Nodes the visitor has no case for. */
  predicate Unhandled(n: LNode) {
    match n
    case Macro(name, _, _) =>
      !IsTitleField(name) && name != "maketitle" && name != "section" && name != "subsection" &&
      name != "textbf" && name != "textit" && name != "item"
    case Environment(env, _) => env != "itemize" && env != "enumerate"
    case Str(_) => false
    case InlineMath(_) => false
    case DisplayMath(_) => false
    case _ => true
  }

  /** Such nodes create no element, leave the stack and the table alone, and raise
      nothing. */
  lemma UnhandledNodesChangeNothing(st: State, n: LNode, katex: Katex)
    requires |st.stack| > 0 && Unhandled(n)
    ensures EnterNode(st, n, katex) == Ok(st) && LeaveNode(st, n) == st
  {
  }

  // ---------------------------------------------------------------------------------
  // Properties of the walk
  // ---------------------------------------------------------------------------------

  /** After the whole walk the stack is the root alone again. */
  lemma WalkEndsAtRoot(tree: LNode, d: Descent, katex: Katex)
    ensures var r := WalkNode(Initial, tree, d, katex);
      r.Ok? ==> |r.value.stack| == 1 && r.value.stack[0].tagName == RootTag
  {
  }

  /** Walking `a + b` walks `a`, then `b` from where `a` ended: elements are appended in
      visit order. */
  function Then(r: Result<State, string>, b: seq<LNode>, d: Descent, katex: Katex): Result<State, string>
    requires r.Ok? ==> |r.value.stack| > 0
  {
    match r
    case Err(m) => Err(m)
    case Ok(s) => WalkSeq(s, b, d, katex)
  }

  lemma {:induction false} WalkSeqConcat(st: State, a: seq<LNode>, b: seq<LNode>, d: Descent, katex: Katex)
    requires |st.stack| > 0
    ensures WalkSeq(st, a + b, d, katex) == Then(WalkSeq(st, a, d, katex), b, d, katex)
    decreases |b|
  {
    if b == [] {
      assert a + b == a;
    } else {
      var b' := b[..|b| - 1];
      assert (a + b)[..|a + b| - 1] == a + b';
      assert (a + b)[|a + b| - 1] == b[|b| - 1];
      WalkSeqConcat(st, a, b', d, katex);
    }
  }

  /** A `\title`, `\author` or `\date` without arguments somewhere the walk reaches. */
  predicate BareTitleIn(n: LNode, d: Descent)
    decreases n, 1
  {
    (n.Macro? && IsTitleField(n.name) && n.args.NoArgs?) || BareTitleUnder(n, d)
  }

  predicate BareTitleUnder(n: LNode, d: Descent)
    decreases n, 0
  {
    match n
    case Macro(_, args, _) => d.intoArgs && args.Args? && BareTitleInArgs(args.list, d)
    case Root(body) => BareTitleInSeq(body, d)
    case Environment(_, body) => BareTitleInSeq(body, d)
    case Group(body) => BareTitleInSeq(body, d)
    case InlineMath(body) => d.intoMath && BareTitleInSeq(body, d)
    case DisplayMath(body) => d.intoMath && BareTitleInSeq(body, d)
    case _ => false
  }

  predicate BareTitleInSeq(ns: seq<LNode>, d: Descent)
    decreases ns
  {
    ns != [] && (BareTitleInSeq(ns[..|ns| - 1], d) || BareTitleIn(ns[|ns| - 1], d))
  }

  predicate BareTitleInArgs(args: seq<Arg>, d: Descent)
    decreases args
  {
    args != [] && (BareTitleInArgs(args[..|args| - 1], d) || BareTitleInSeq(args[|args| - 1].content, d))
  }

  /** The walk raises exactly when it meets an argument-less `\title`, `\author` or
      `\date`, whatever state it starts in. */
  lemma {:induction false} WalkNodeFailsIff(st: State, n: LNode, d: Descent, katex: Katex)
    requires |st.stack| > 0
    ensures WalkNode(st, n, d, katex).Err? <==> BareTitleIn(n, d)
    decreases n, 1
  {
    match EnterNode(st, n, katex)
    case Err(_) =>
    case Ok(entered) =>
      WalkChildrenFailsIff(entered, n, d, katex);
  }

  lemma {:induction false} WalkChildrenFailsIff(st: State, n: LNode, d: Descent, katex: Katex)
    requires |st.stack| > 0
    ensures WalkChildren(st, n, d, katex).Err? <==> BareTitleUnder(n, d)
    decreases n, 0
  {
    match n
    case Macro(_, args, _) =>
      if d.intoArgs && args.Args? {
        WalkArgsFailsIff(st, args.list, d, katex);
      }
    case Root(body) => WalkSeqFailsIff(st, body, d, katex);
    case Environment(_, body) => WalkSeqFailsIff(st, body, d, katex);
    case Group(body) => WalkSeqFailsIff(st, body, d, katex);
    case InlineMath(body) =>
      if d.intoMath {
        WalkSeqFailsIff(st, body, d, katex);
      }
    case DisplayMath(body) =>
      if d.intoMath {
        WalkSeqFailsIff(st, body, d, katex);
      }
    case _ =>
  }

  lemma {:induction false} WalkSeqFailsIff(st: State, ns: seq<LNode>, d: Descent, katex: Katex)
    requires |st.stack| > 0
    ensures WalkSeq(st, ns, d, katex).Err? <==> BareTitleInSeq(ns, d)
    decreases ns
  {
    if ns != [] {
      WalkSeqFailsIff(st, ns[..|ns| - 1], d, katex);
      match WalkSeq(st, ns[..|ns| - 1], d, katex)
      case Err(_) =>
      case Ok(s1) =>
        WalkNodeFailsIff(s1, ns[|ns| - 1], d, katex);
    }
  }

  lemma {:induction false} WalkArgsFailsIff(st: State, args: seq<Arg>, d: Descent, katex: Katex)
    requires |st.stack| > 0
    ensures WalkArgs(st, args, d, katex).Err? <==> BareTitleInArgs(args, d)
    decreases args
  {
    if args != [] {
      WalkArgsFailsIff(st, args[..|args| - 1], d, katex);
      match WalkArgs(st, args[..|args| - 1], d, katex)
      case Err(_) =>
      case Ok(s1) =>
        WalkSeqFailsIff(s1, args[|args| - 1].content, d, katex);
    }
  }

  /** The preview shows the failure panel exactly when parsing failed or the tree holds
      an argument-less `\title`, `\author` or `\date` the walk reaches; it never raises. */
  lemma PreviewFailsIff(parsed: Result<LNode, string>, d: Descent, katex: Katex)
    ensures PreviewOf(parsed, d, katex).PreviewFailed? <==> parsed.Err? || BareTitleIn(parsed.value, d)
    ensures parsed.Err? ==> PreviewOf(parsed, d, katex) == PreviewFailed(parsed.error)
    ensures parsed.Ok? && BareTitleIn(parsed.value, d) ==> PreviewOf(parsed, d, katex) == PreviewFailed(MissingArgsError)
  {
    if parsed.Ok? {
      WalkNodeFailsIff(Initial, parsed.value, d, katex);
    }
  }

  /** Two states with the same current container and the same title table. */
  predicate SameFocus(a: State, b: State) {
    |a.stack| > 0 && |b.stack| > 0 && Top(a) == Top(b) && a.titleData == b.titleData
  }

  lemma EnterLocal(a: State, b: State, n: LNode, katex: Katex)
    requires SameFocus(a, b)
    ensures EnterNode(a, n, katex).Err? == EnterNode(b, n, katex).Err?
    ensures EnterNode(a, n, katex).Ok? ==> SameFocus(EnterNode(a, n, katex).value, EnterNode(b, n, katex).value)
  {
  }

  /** What a walk adds depends only on the current container and the title table, not
      on the containers below. */
  lemma {:induction false} WalkNodeLocal(a: State, b: State, n: LNode, d: Descent, katex: Katex)
    requires SameFocus(a, b)
    ensures WalkNode(a, n, d, katex).Err? == WalkNode(b, n, d, katex).Err?
    ensures WalkNode(a, n, d, katex).Ok? ==> SameFocus(WalkNode(a, n, d, katex).value, WalkNode(b, n, d, katex).value)
    decreases n, 1
  {
    EnterLocal(a, b, n, katex);
    match EnterNode(a, n, katex)
    case Err(_) =>
    case Ok(ea) =>
      var eb := EnterNode(b, n, katex).value;
      WalkChildrenLocal(ea, eb, n, d, katex);
      match WalkChildren(ea, n, d, katex)
      case Err(_) =>
      case Ok(wa) =>
        var wb := WalkChildren(eb, n, d, katex).value;
        if IsListEnvironment(n) {
          ListBelowTop(a, ea, wa, n, katex);
          ListBelowTop(b, eb, wb, n, katex);
          LeaveLocal(wa, wb, n);
        }
  }

  /** While a list's body is walked, the container below the list is the one that was
      current when the list was entered. */
  lemma ListBelowTop(st: State, entered: State, walked: State, n: LNode, katex: Katex)
    requires |st.stack| > 0 && IsListEnvironment(n)
    requires EnterNode(st, n, katex) == Ok(entered) && Extends(entered, walked)
    ensures |walked.stack| == |st.stack| + 1 && walked.stack[|walked.stack| - 2] == Top(st)
    ensures walked.stack[..|st.stack| - 1] == st.stack[..|st.stack| - 1]
  {
    assert walked.stack[..|st.stack|] == entered.stack[..|st.stack|];
    assert walked.stack[..|st.stack| - 1] == walked.stack[..|st.stack|][..|st.stack| - 1];
    assert st.stack[..|st.stack| - 1] == entered.stack[..|st.stack|][..|st.stack| - 1];
  }

  lemma LeaveLocal(wa: State, wb: State, n: LNode)
    requires IsListEnvironment(n) && SameFocus(wa, wb) && |wa.stack| >= 2 && |wb.stack| >= 2
    requires wa.stack[|wa.stack| - 2] == wb.stack[|wb.stack| - 2]
    ensures SameFocus(LeaveNode(wa, n), LeaveNode(wb, n))
  {
  }

  lemma {:induction false} WalkChildrenLocal(a: State, b: State, n: LNode, d: Descent, katex: Katex)
    requires SameFocus(a, b)
    ensures WalkChildren(a, n, d, katex).Err? == WalkChildren(b, n, d, katex).Err?
    ensures WalkChildren(a, n, d, katex).Ok? ==> SameFocus(WalkChildren(a, n, d, katex).value, WalkChildren(b, n, d, katex).value)
    decreases n, 0
  {
    match n
    case Macro(_, args, _) =>
      if d.intoArgs && args.Args? {
        WalkArgsLocal(a, b, args.list, d, katex);
      }
    case Root(body) => WalkSeqLocal(a, b, body, d, katex);
    case Environment(_, body) => WalkSeqLocal(a, b, body, d, katex);
    case Group(body) => WalkSeqLocal(a, b, body, d, katex);
    case InlineMath(body) =>
      if d.intoMath {
        WalkSeqLocal(a, b, body, d, katex);
      }
    case DisplayMath(body) =>
      if d.intoMath {
        WalkSeqLocal(a, b, body, d, katex);
      }
    case _ =>
  }

  lemma {:induction false} WalkSeqLocal(a: State, b: State, ns: seq<LNode>, d: Descent, katex: Katex)
    requires SameFocus(a, b)
    ensures WalkSeq(a, ns, d, katex).Err? == WalkSeq(b, ns, d, katex).Err?
    ensures WalkSeq(a, ns, d, katex).Ok? ==> SameFocus(WalkSeq(a, ns, d, katex).value, WalkSeq(b, ns, d, katex).value)
    decreases ns
  {
    if ns != [] {
      WalkSeqLocal(a, b, ns[..|ns| - 1], d, katex);
      match WalkSeq(a, ns[..|ns| - 1], d, katex)
      case Err(_) =>
      case Ok(sa) =>
        WalkNodeLocal(sa, WalkSeq(b, ns[..|ns| - 1], d, katex).value, ns[|ns| - 1], d, katex);
    }
  }

  lemma {:induction false} WalkArgsLocal(a: State, b: State, args: seq<Arg>, d: Descent, katex: Katex)
    requires SameFocus(a, b)
    ensures WalkArgs(a, args, d, katex).Err? == WalkArgs(b, args, d, katex).Err?
    ensures WalkArgs(a, args, d, katex).Ok? ==> SameFocus(WalkArgs(a, args, d, katex).value, WalkArgs(b, args, d, katex).value)
    decreases args
  {
    if args != [] {
      WalkArgsLocal(a, b, args[..|args| - 1], d, katex);
      match WalkArgs(a, args[..|args| - 1], d, katex)
      case Err(_) =>
      case Ok(sa) =>
        WalkSeqLocal(sa, WalkArgs(b, args[..|args| - 1], d, katex).value, args[|args| - 1].content, d, katex);
    }
  }

  /** A body walked alone inside a fresh container, starting from the given title table. */
  function BodyWalk(tag: string, body: seq<LNode>, titleData: map<string, string>, d: Descent, katex: Katex): Result<State, string> {
    WalkSeq(State([Frame(tag, [])], titleData), body, d, katex)
  }

  /** The elements a body produces when walked alone inside a fresh container. */
  function BodyElements(tag: string, body: seq<LNode>, titleData: map<string, string>, d: Descent, katex: Katex): Result<seq<Hast>, string> {
    match BodyWalk(tag, body, titleData, d, katex)
    case Err(m) => Err(m)
    case Ok(s) => Ok(Top(s).children)
  }

  /** Walking a list environment appends exactly one `ul` or `ol` to the current
      container, holding what its body produces on its own, and leaves the title table
      as that walk of the body leaves it; nothing else changes. */
  lemma ListHoldsItsBody(st: State, env: string, body: seq<LNode>, d: Descent, katex: Katex)
    requires |st.stack| > 0 && (env == "itemize" || env == "enumerate")
    ensures var r := WalkNode(st, Environment(env, body), d, katex);
      var alone := BodyWalk(ListTag(env), body, st.titleData, d, katex);
      var kids := BodyElements(ListTag(env), body, st.titleData, d, katex);
      r.Err? == kids.Err? && r.Err? == alone.Err? &&
      (r.Ok? ==>
        r.value.stack[..|st.stack| - 1] == st.stack[..|st.stack| - 1] &&
        Top(r.value).children == Top(st).children + [Element(ListTag(env), None, None, kids.value)] &&
        r.value.titleData == alone.value.titleData)
  {
    var n := Environment(env, body);
    var entered := st.(stack := st.stack + [Frame(ListTag(env), [])]);
    var alone := State([Frame(ListTag(env), [])], st.titleData);
    WalkSeqLocal(entered, alone, body, d, katex);
    match WalkSeq(entered, body, d, katex)
    case Err(_) =>
    case Ok(wa) =>
      ListBelowTop(st, entered, wa, n, katex);
  }

  // ---------------------------------------------------------------------------------
  // The builder
  // ---------------------------------------------------------------------------------

  /** A step that either finished in the state `expected` holds, or raised its message. */
  predicate Completes(expected: Result<State, string>, thrown: Option<string>, now: State) {
    match expected
    case Ok(s) => thrown.None? && now == s
    case Err(m) => thrown == Some(m)
  }

  /** The state `latexToHast` closes over: `environmentStack` and `titleData`. */
  class HastBuilder {
    var stack: seq<Frame>
    var titleData: map<string, string>

    function Snapshot(): State
      reads this
    {
      State(stack, titleData)
    }

    constructor ()
      ensures Snapshot() == Initial
    {
      stack := [Frame(RootTag, [])];
      titleData := map[];
    }

    /** `getCurrentEnv().children.push(e)`. */
    method AppendToCurrent(e: Hast)
      requires |stack| > 0
      modifies this
      ensures Snapshot() == AppendChild(old(Snapshot()), e)
    {
      var top := stack[|stack| - 1];
      stack := stack[..|stack| - 1] + [top.(children := top.children + [e])];
    }

    /** The `enter` callback. */
    method Enter(n: LNode, katex: Katex) returns (thrown: Option<string>)
      requires |stack| > 0
      modifies this
      ensures Completes(EnterNode(old(Snapshot()), n, katex), thrown, Snapshot())
    {
      thrown := None;
      match n {
        case Macro(name, args, after) =>
          if IsTitleField(name) {
            if args.NoArgs? {
              thrown := Some(MissingArgsError);
              return;
            }
            titleData := titleData[name := ArgsText(args.list)];
          } else if name == "maketitle" {
            AppendToCurrent(TitleBlock(titleData));
          } else if name == "section" || name == "subsection" {
            var tagName := if name == "section" then "h2" else "h3";
            AppendToCurrent(Element(tagName, None, None, [Text(FirstArgText(args))]));
          } else if name == "textbf" || name == "textit" {
            var tagName := if name == "textbf" then "strong" else "em";
            AppendToCurrent(Element(tagName, None, None, [Text(FirstArgText(args))]));
          } else if name == "item" {
            AppendToCurrent(Element("li", None, None, [Text(ItemText(args, after))]));
          }
        case Str(t) =>
          if Trim(t) != "" {
            AppendToCurrent(Element("p", None, None, [Text(Trim(t))]));
          }
        case InlineMath(body) =>
          AppendToCurrent(MathSpan(katex(body, false)));
        case DisplayMath(body) =>
          AppendToCurrent(MathSpan(katex(body, true)));
        case Environment(env, _) =>
          if IsListEnvironment(n) {
            stack := stack + [Frame(ListTag(env), [])];
          }
        case _ =>
      }
    }

    /** The `leave` callback. */
    method Leave(n: LNode)
      requires |stack| > 0 && (IsListEnvironment(n) ==> |stack| >= 2)
      modifies this
      ensures Snapshot() == LeaveNode(old(Snapshot()), n)
    {
      if IsListEnvironment(n) {
        var top := stack[|stack| - 1];
        var parent := stack[|stack| - 2];
        stack := stack[..|stack| - 2] + [parent.(children := parent.children + [Close(top)])];
      }
    }

    /** `visit` from node `n`, which sits inside `enclosing` list environments: the stack
        then holds the root and one container per enclosing list. */
    method Walk(n: LNode, d: Descent, katex: Katex, ghost enclosing: nat) returns (thrown: Option<string>)
      requires |stack| == enclosing + 1
      modifies this
      ensures Completes(WalkNode(old(Snapshot()), n, d, katex), thrown, Snapshot())
      decreases n, 1
    {
      ghost var st := Snapshot();
      thrown := Enter(n, katex);
      if thrown.Some? {
        return;
      }
      ghost var entered := Snapshot();
      thrown := WalkUnder(n, d, katex, if IsListEnvironment(n) then enclosing + 1 else enclosing);
      if thrown.Some? {
        return;
      }
      LeaveExtends(st, entered, Snapshot(), n, katex);
      Leave(n);
    }

    /** The children of `n` the library walks. */
    method WalkUnder(n: LNode, d: Descent, katex: Katex, ghost enclosing: nat) returns (thrown: Option<string>)
      requires |stack| == enclosing + 1
      modifies this
      ensures Completes(WalkChildren(old(Snapshot()), n, d, katex), thrown, Snapshot())
      decreases n, 0
    {
      thrown := None;
      match n {
        case Macro(_, args, _) =>
          if d.intoArgs && args.Args? {
            thrown := WalkArguments(args.list, d, katex, enclosing);
          }
        case Root(body) => thrown := WalkAll(body, d, katex, enclosing);
        case Environment(_, body) => thrown := WalkAll(body, d, katex, enclosing);
        case Group(body) => thrown := WalkAll(body, d, katex, enclosing);
        case InlineMath(body) =>
          if d.intoMath {
            thrown := WalkAll(body, d, katex, enclosing);
          }
        case DisplayMath(body) =>
          if d.intoMath {
            thrown := WalkAll(body, d, katex, enclosing);
          }
        case _ =>
      }
    }

    /** The nodes of a sequence, in order, until one raises. */
    method WalkAll(ns: seq<LNode>, d: Descent, katex: Katex, ghost enclosing: nat) returns (thrown: Option<string>)
      requires |stack| == enclosing + 1
      modifies this
      ensures Completes(WalkSeq(old(Snapshot()), ns, d, katex), thrown, Snapshot())
      decreases ns
    {
      ghost var st := Snapshot();
      thrown := None;
      var i := 0;
      while i < |ns|
        invariant 0 <= i <= |ns|
        invariant WalkSeq(st, ns[..i], d, katex) == Ok(Snapshot()) && thrown.None?
        invariant |stack| == enclosing + 1
      {
        assert ns[..i + 1][..i] == ns[..i];
        thrown := Walk(ns[i], d, katex, enclosing);
        if thrown.Some? {
          WalkSeqFailureSticks(st, ns, i + 1, d, katex);
          return;
        }
        i := i + 1;
      }
      assert ns[..i] == ns;
    }

    /** The arguments of a macro, each argument's content in order. */
    method WalkArguments(args: seq<Arg>, d: Descent, katex: Katex, ghost enclosing: nat) returns (thrown: Option<string>)
      requires |stack| == enclosing + 1
      modifies this
      ensures Completes(WalkArgs(old(Snapshot()), args, d, katex), thrown, Snapshot())
      decreases args
    {
      ghost var st := Snapshot();
      thrown := None;
      var j := 0;
      while j < |args|
        invariant 0 <= j <= |args|
        invariant WalkArgs(st, args[..j], d, katex) == Ok(Snapshot()) && thrown.None?
        invariant |stack| == enclosing + 1
      {
        assert args[..j + 1][..j] == args[..j];
        thrown := WalkAll(args[j].content, d, katex, enclosing);
        if thrown.Some? {
          WalkArgsFailureSticks(st, args, j + 1, d, katex);
          return;
        }
        j := j + 1;
      }
      assert args[..j] == args;
    }
  }

  /** `LivePreview`: parse failures and exceptions of the builder both end in the failure
      panel; nothing escapes. */
  method LivePreview(parsed: Result<LNode, string>, d: Descent, katex: Katex) returns (view: Rendering)
    ensures view == PreviewOf(parsed, d, katex)
  {
    match parsed {
      case Err(m) =>
        view := PreviewFailed(m);
      case Ok(tree) =>
        var builder := new HastBuilder();
        var thrown := builder.Walk(tree, d, katex, 0);
        if thrown.Some? {
          view := PreviewFailed(thrown.value);
        } else {
          view := Rendered(builder.stack[0].children);
        }
    }
  }
}
