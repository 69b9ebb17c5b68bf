/** The per-header pass: each physical line is cleared of comments, the
    interface being wrapped is tracked by brace depth, preprocessor lines
    inside it are copied (with `#ifdef`/`#ifndef` rewritten), and virtual
    method declarations, possibly spread over several lines, become C
    wrappers. The list of exported names is shared by all headers of a run. */
module Generator {
  import opened TextOps
  import opened Registry
  import opened SignatureParser
  import opened ArgumentCanonicalizer
  import opened Emitter

  /** The variables the pass keeps from one line to the next. An empty
      `iface` is the source's `None`: no interface is open. */
  datatype Doc = Doc(
    depth: int,
    iface: string,
    ifaceDepth: int,
    inComment: bool,
    sig: Signature,
    output: seq<string>)

  const Start: Doc := Doc(0, "", 0, false, Fresh, [])

  /** What is left of a line once comments are taken out: the code, or
      `None` when the line is to be skipped, and whether a block comment is
      open afterwards. */
  datatype Filtered = Filtered(code: Option<string>, inComment: bool)

  /** The comment handling of the source, case by case. A line that opens a
      block comment and closes it again keeps only what follows the close
      (code before the comment is lost); a line that opens one without
      closing it keeps the code before it. */
  function CodeOf(line: string, inComment: bool): (r: Filtered)
    ensures r.code.Some? ==> r.code.value != "" && IsTrimmed(r.code.value)
  {
    var l := Strip(BeforeFirst(line, "//"));
    if l == "" then Filtered(None, inComment)
    else
      var (l1, inC, codeOnLine) := OpenCut(l, inComment);
      if l1 == "" then Filtered(None, inC) else CloseCut(l1, inC, codeOnLine)
  }

  /** The stage for a block comment's opening mark: the text going on, whether a block comment is open,
      and whether code precedes an unclosed comment on this line. */
  function OpenCut(l: string, inComment: bool): (r: (string, bool, bool))
    ensures IsTrimmed(l) ==> IsTrimmed(r.0)
    ensures Contains(l, "/*") ==> (r.1 <==> !Contains(l, "*/"))
    ensures !Contains(l, "/*") ==> r.1 == inComment && r.0 == l
    ensures r.2 ==> r.1
  {
    if Contains(l, "/*") then
      if Contains(l, "*/") then (l, false, false) else (Strip(BeforeFirst(l, "/*")), true, true)
    else (l, inComment, false)
  }

  /** The stage for a block comment's closing mark, and the skipping of
      lines inside a comment. */
  function CloseCut(l: string, inComment: bool, codeOnLine: bool): (r: Filtered)
    ensures IsTrimmed(l) && l != "" && r.code.Some? ==> r.code.value != "" && IsTrimmed(r.code.value)
    ensures Contains(l, "*/") ==> !r.inComment
    ensures !Contains(l, "*/") ==> r.inComment == inComment
    ensures !Contains(l, "*/") && !inComment ==> r.code == Some(l)
  {
    if Contains(l, "*/") then
      var a := Strip(AfterFirst(l, "*/"));
      if a == "" then Filtered(None, false) else Filtered(Some(a), false)
    else if inComment && !codeOnLine then Filtered(None, inComment)
    else Filtered(Some(l), inComment)
  }

  lemma OpenCutWithin(l: string, inComment: bool, p: string)
    requires Contains(OpenCut(l, inComment).0, p)
    ensures Contains(l, p)
  {
    if Contains(l, "/*") && !Contains(l, "*/") {
      BeforeWithin(l, "/*", p);
    }
  }

  lemma CloseCutWithin(l: string, inComment: bool, codeOnLine: bool, p: string)
    requires CloseCut(l, inComment, codeOnLine).code.Some?
    requires Contains(CloseCut(l, inComment, codeOnLine).code.value, p)
    ensures Contains(l, p)
  {
    var b := CloseCut(l, inComment, codeOnLine).code.value;
    if Contains(l, "*/") {
      CloseCutAfter(l, b, p);
    } else {
      assert b == l;
    }
  }

  lemma CloseCutAfter(l: string, b: string, p: string)
    requires Contains(l, "*/") && b == Strip(AfterFirst(l, "*/")) && Contains(b, p)
    ensures Contains(l, p)
  {
    var a := AfterFirst(l, "*/");
    StripSuffixWithin(l, a, b, p);
  }

  /** What the code of a line contains, the line with its `//` comment
      removed contains. */
  lemma CodeInUncommented(line: string, inComment: bool, p: string)
    requires CodeOf(line, inComment).code.Some?
    requires Contains(CodeOf(line, inComment).code.value, p)
    ensures Contains(Strip(BeforeFirst(line, "//")), p)
  {
    var l := Strip(BeforeFirst(line, "//"));
    var (l1, inC, codeOnLine) := OpenCut(l, inComment);
    CloseCutWithin(l1, inC, codeOnLine, p);
    OpenCutWithin(l, inComment, p);
  }

  /** The code of a line is a piece of the line: whatever it contains, the
      line contains. */
  lemma CodeWithin(line: string, inComment: bool, p: string)
    requires CodeOf(line, inComment).code.Some?
    requires Contains(CodeOf(line, inComment).code.value, p)
    ensures Contains(line, p)
  {
    CodeInUncommented(line, inComment, p);
    BeforeWithin(line, "//", p);
  }

  /** The code of a line is non-empty, trimmed and free of `//`. */
  lemma CodeShape(line: string, inComment: bool)
    requires CodeOf(line, inComment).code.Some?
    ensures var c := CodeOf(line, inComment).code.value;
            c != "" && IsTrimmed(c) && !Contains(c, "//")
  {
    var l := Strip(BeforeFirst(line, "//"));
    var (l1, inC, codeOnLine) := OpenCut(l, inComment);
    var c := CodeOf(line, inComment).code.value;
    if Contains(c, "//") {
      CodeInUncommented(line, inComment, "//");
      UncommentedFree(line);
    }
  }

  lemma UncommentedFree(line: string)
    ensures !Contains(Strip(BeforeFirst(line, "//")), "//")
  {
    var b := BeforeFirst(line, "//");
    if Contains(Strip(b), "//") {
      StripContains(b, "//");
    }
  }

  /** Inside a block comment, a line that neither opens nor closes one is
      skipped and the comment stays open. */
  lemma InsideCommentSkipped(line: string)
    requires !Contains(line, "/*") && !Contains(line, "*/")
    ensures CodeOf(line, true) == Filtered(None, true)
  {
    var l := Strip(BeforeFirst(line, "//"));
    if Contains(l, "/*") {
      BeforeWithin(line, "//", "/*");
    }
    if Contains(l, "*/") {
      BeforeWithin(line, "//", "*/");
    }
  }

  /** A line whose code holds both block-comment marks keeps only what
      follows the first closing mark, and leaves no comment open, whatever
      came before. */
  lemma BothMarksKeepAfter(line: string, inComment: bool)
    requires var l := Strip(BeforeFirst(line, "//")); Contains(l, "/*") && Contains(l, "*/")
    ensures var a := Strip(AfterFirst(Strip(BeforeFirst(line, "//")), "*/"));
            CodeOf(line, inComment) == Filtered(if a == "" then None else Some(a), false)
  {
  }

  /** Inside a block comment, a line whose code closes it without opening
      another keeps only the stripped text after the first closing mark
      (skipped when empty), and the comment is closed. */
  lemma CloseCommentKeepsAfter(line: string)
    requires var l := Strip(BeforeFirst(line, "//")); l != "" && !Contains(l, "/*") && Contains(l, "*/")
    ensures var a := Strip(AfterFirst(Strip(BeforeFirst(line, "//")), "*/"));
            CodeOf(line, true) == Filtered(if a == "" then None else Some(a), false)
  {
  }

  /** A line whose code opens a block comment without closing it keeps the
      code before the opening mark, if any, and leaves the comment open. */
  lemma OpenCommentKeepsBefore(line: string, inComment: bool)
    requires var l := Strip(BeforeFirst(line, "//")); Contains(l, "/*") && !Contains(l, "*/")
    ensures var b := Strip(BeforeFirst(Strip(BeforeFirst(line, "//")), "/*"));
            CodeOf(line, inComment) == Filtered(if b == "" then None else Some(b), true)
  {
    var l := Strip(BeforeFirst(line, "//"));
    var b := Strip(BeforeFirst(l, "/*"));
    if b != "" && Contains(b, "*/") {
      BeforeWithin(l, "/*", "*/");
      assert false;
    }
  }

  /** Outside comments, a line without comment markers is its own code,
      trimmed. */
  lemma PlainLineKept(line: string)
    requires !Contains(line, "//") && !Contains(line, "/*") && !Contains(line, "*/")
    requires Strip(line) != ""
    ensures CodeOf(line, false) == Filtered(Some(Strip(line)), false)
  {
    var l := Strip(line);
    if Contains(l, "/*") { StripContains(line, "/*"); }
    if Contains(l, "*/") { StripContains(line, "*/"); }
  }

  /** The brace bookkeeping at the end of a processed line: one level in for
      a `{`, one out for a `}`, and the interface closes when the depth is
      back where it was opened. */
  function Braces(d: Doc, l: string): (r: Doc)
    ensures -1 <= r.depth - d.depth <= 1
    ensures r.depth == d.depth + (if Contains(l, "{") then 1 else 0) - (if Contains(l, "}") then 1 else 0)
    ensures r.iface == (if d.iface != "" && Contains(l, "}") && r.depth == d.ifaceDepth then "" else d.iface)
    ensures r == d.(depth := r.depth, iface := r.iface)
  {
    var depth := if Contains(l, "{") then d.depth + 1 else d.depth;
    if Contains(l, "}") then
      var depth' := depth - 1;
      d.(depth := depth', iface := if d.iface != "" && depth' == d.ifaceDepth then "" else d.iface)
    else d.(depth := depth)
  }

  /** The interface a `class ISteam...` line opens: the word after `class`,
      unless the header is wrapped under another interface's name. */
  function InterfaceName(l: string, ifaceOverride: Option<string>): (r: string)
    requires Contains(l, "class ISteam")
    ensures ifaceOverride.None? ==> StartsWith(r, "ISteam")
    ensures ifaceOverride.None? ==>
              var rest := l[Find(l, "class ISteam") + 6..];
              IsWord(r) && StartsWith(rest, r) && (|r| == |rest| || IsSpace(rest[|r|]))
    ensures ifaceOverride.Some? ==> r == ifaceOverride.value
  {
    if ifaceOverride.Some? then ifaceOverride.value
    else
      var pos := Find(l, "class ISteam");
      FindSpec(l, "class ISteam");
      var rest := l[pos + 6..];
      ClassNameFollows(l, pos, rest);
      var w := SplitWhitespace(rest);
      TakeWordPrefix(rest, 6);
      w[0]
  }

  /** After `class ` comes `ISteam`, none of whose characters is a space. */
  lemma ClassNameFollows(l: string, pos: nat, rest: string)
    requires pos <= |l| && StartsWith(l[pos..], "class ISteam") && rest == l[pos + 6..]
    ensures |rest| >= 6 && rest[..6] == "ISteam"
    ensures forall i :: 0 <= i < 6 ==> !IsSpace(rest[i])
  {
    var s := l[pos..];
    assert s[..12] == "class ISteam";
    forall k | 0 <= k < 6
      ensures rest[k] == "ISteam"[k]
    {
      assert rest[k] == s[..12][6 + k];
    }
  }

  /** The first word of a text starts with the text's first `n` characters
      when none of them is whitespace. */
  lemma {:induction false} TakeWordPrefix(s: string, n: nat)
    requires n <= |s| && forall i :: 0 <= i < n ==> !IsSpace(s[i])
    ensures |TakeWord(s)| >= n && TakeWord(s)[..n] == s[..n]
  {
  }

  /** The output line for a preprocessor line inside an interface, or `None`
      for the index error of an `#ifdef` or `#ifndef` without a name. */
  function Directive(l: string): (r: Option<string>)
    ensures r.None? <==> (StartsWith(l, "#ifdef") || StartsWith(l, "#ifndef")) && |SplitWhitespace(l)| < 2
  {
    if StartsWith(l, "#ifdef") then
      var w := SplitWhitespace(l);
      if |w| < 2 then None else Some("#if defined(" + w[1] + ")")
    else if StartsWith(l, "#ifndef") then
      var w := SplitWhitespace(l);
      if |w| < 2 then None else Some("#if !defined(" + w[1] + ")")
    else Some(Strip(l))
  }

  lemma SplitTwoWords(a: string, b: string)
    requires IsWord(a) && IsWord(b)
    ensures SplitWhitespace(a + " " + b) == [a, b]
  {
    SplitWhitespaceCons(a, b);
    SplitWhitespaceSingle(b);
  }

  /** Neither directive keyword holds whitespace. */
  lemma KeywordsAreWords()
    ensures IsWord("#ifdef") && IsWord("#ifndef")
  {
    var k := "#ifndef";
    assert !IsSpace(k[0]) && !IsSpace(k[1]) && !IsSpace(k[2]) && !IsSpace(k[3])
           && !IsSpace(k[4]) && !IsSpace(k[5]) && !IsSpace(k[6]);
    var j := "#ifdef";
    assert !IsSpace(j[0]) && !IsSpace(j[1]) && !IsSpace(j[2]) && !IsSpace(j[3])
           && !IsSpace(j[4]) && !IsSpace(j[5]);
  }

  /** `#ifdef X` becomes a `defined` test. */
  lemma IfdefRewritten(name: string)
    requires IsWord(name)
    ensures Directive("#ifdef " + name) == Some("#if defined(" + name + ")")
  {
    var l := "#ifdef " + name;
    assert StartsWith(l, "#ifdef") by {
      assert l[..6] == "#ifdef";
    }
    assert l == "#ifdef" + " " + name;
    KeywordsAreWords();
    SplitTwoWords("#ifdef", name);
  }

  /** `#ifndef X` becomes a negated `defined` test. */
  lemma IfndefRewritten(name: string)
    requires IsWord(name)
    ensures Directive("#ifndef " + name) == Some("#if !defined(" + name + ")")
  {
    var l := "#ifndef " + name;
    assert !StartsWith(l, "#ifdef") by {
      assert l[3] == 'n' && "#ifdef"[3] == 'd';
    }
    assert StartsWith(l, "#ifndef") by {
      assert l[..7] == "#ifndef";
    }
    assert l == "#ifndef" + " " + name;
    KeywordsAreWords();
    SplitTwoWords("#ifndef", name);
  }

  /** Other directives are copied as they are. */
  lemma OtherDirectiveCopied(l: string)
    requires IsTrimmed(l) && !StartsWith(l, "#ifdef") && !StartsWith(l, "#ifndef")
    ensures Directive(l) == Some(l)
  {
    StripTrimmed(l);
  }

  /** What one line does: go on with the new variables and registry, or
      abort the run with the registry as the error leaves it. */
  datatype LineResult = Went(doc: Doc, names: seq<string>) | Crashed(names: seq<string>)

  /** A line inside an interface that holds `virtual` or continues an open
      declaration. A destructor line is skipped; a declaration still open
      at the end of the line skips the brace bookkeeping. */
  function DeclarationLine(d: Doc, l: string, names: seq<string>): (r: LineResult)
    requires d.iface != ""
    ensures names <= r.names
    ensures r.Went? ==> d.output <= r.doc.output && -1 <= r.doc.depth - d.depth <= 1
  {
    if Contains(l, "~") then Went(d, names)
    else
      var sig0 := if d.sig.phase == ReturnType then Fresh else d.sig;
      Completed(d, l, Scan(SplitWhitespace(l), sig0, d.iface, names))
  }

  /** What a declaration line's scanned tokens lead to: a declaration that
      is still open is kept, a complete one is emitted and the line's braces
      counted, and an index error ends the run. */
  function Completed(d: Doc, l: string, scanned: ScanResult): (r: LineResult)
    ensures r.names == scanned.names
    ensures r.Went? ==> d.output <= r.doc.output && -1 <= r.doc.depth - d.depth <= 1
    ensures r.Went? && scanned.Scanned? && scanned.sig.phase != ReturnType ==> r.doc.output == d.output
  {
    match scanned
    case ScanFault(n) => Crashed(n)
    case Scanned(s, n) =>
      if s.phase != ReturnType then Went(d.(sig := s), n)
      else
        match Emit(s, d.iface)
        case None => Crashed(n)
        case Some(lines) => Went(Braces(d.(sig := s, output := d.output + lines), l), n)
  }

  /** One physical line of a header. */
  function LineStep(d: Doc, names: seq<string>, line: string, ifaceOverride: Option<string>): (r: LineResult)
    ensures names <= r.names
    ensures r.Went? ==> d.output <= r.doc.output && -1 <= r.doc.depth - d.depth <= 1
  {
    var f := CodeOf(line, d.inComment);
    match f.code
    case None => Went(d.(inComment := f.inComment), names)
    case Some(l) => CodeStep(d.(inComment := f.inComment), names, l, ifaceOverride)
  }

  /** What the code `l` left of a line does. */
  function CodeStep(d: Doc, names: seq<string>, l: string, ifaceOverride: Option<string>): (r: LineResult)
    ensures names <= r.names
    ensures r.Went? ==> d.output <= r.doc.output && -1 <= r.doc.depth - d.depth <= 1
  {
    var pos := Find(l, "class ISteam");
    if pos != -1 && (Contains(l, ";") || Contains(l, "Response")) then Went(d, names)
    else
      var d2 := if pos == -1 then d else d.(iface := InterfaceName(l, ifaceOverride), ifaceDepth := d.depth);
      if d2.iface == "" then Went(Braces(d2, l), names)
      else if StartsWith(l, "#") then
        match Directive(l)
        case None => Crashed(names)
        case Some(o) => Went(Braces(d2.(output := d2.output + [o]), l), names)
      else if Contains(l, "virtual") || d2.sig.phase != ReturnType then DeclarationLine(d2, l, names)
      else Went(Braces(d2, l), names)
  }

  /** How a header's pass ends: with its output and the registry, or with an
      index error. */
  datatype DocResult = Finished(output: seq<string>, names: seq<string>) | Failed(names: seq<string>)

  function RunFrom(lines: seq<string>, i: nat, d: Doc, names: seq<string>, ifaceOverride: Option<string>): (r: DocResult)
    requires i <= |lines|
    decreases |lines| - i
  {
    if i == |lines| then Finished(d.output, names)
    else
      match LineStep(d, names, lines[i], ifaceOverride)
      case Crashed(n) => Failed(n)
      case Went(d', n) => RunFrom(lines, i + 1, d', n, ifaceOverride)
  }

  /** A whole header only appends: its output is never taken back, and
      names are only ever added to the registry. */
  lemma {:induction false} RunAppends(lines: seq<string>, i: nat, d: Doc, names: seq<string>,
                                      ifaceOverride: Option<string>)
    requires i <= |lines|
    ensures var r := RunFrom(lines, i, d, names, ifaceOverride);
            && names <= r.names
            && (r.Finished? ==> d.output <= r.output)
    decreases |lines| - i
  {
    if i < |lines| {
      match LineStep(d, names, lines[i], ifaceOverride)
      case Crashed(n) =>
      case Went(d', n) => RunAppends(lines, i + 1, d', n, ifaceOverride);
    }
  }

  /** The pass over a whole header, given the names exported before it. */
  function Generate(lines: seq<string>, ifaceOverride: Option<string>, names: seq<string>): (r: DocResult)
    ensures names <= r.names
  {
    RunAppends(lines, 0, Start, names, ifaceOverride);
    RunFrom(lines, 0, Start, names, ifaceOverride)
  }

  /** A line inside a block comment that does not close it changes nothing
      but the line count. */
  lemma CommentedLineIgnored(d: Doc, names: seq<string>, line: string, ifaceOverride: Option<string>)
    requires d.inComment && !Contains(line, "/*") && !Contains(line, "*/")
    ensures LineStep(d, names, line, ifaceOverride) == Went(d, names)
  {
    InsideCommentSkipped(line);
  }

  /** Outside an interface nothing is written and nothing registered, unless
      the line opens one. */
  lemma OutsideInterfaceSilent(d: Doc, names: seq<string>, line: string, ifaceOverride: Option<string>)
    requires d.iface == "" && !Contains(line, "class ISteam")
    ensures LineStep(d, names, line, ifaceOverride).Went?
    ensures var r := LineStep(d, names, line, ifaceOverride);
            r.doc.output == d.output && r.doc.sig == d.sig && r.names == names
  {
    var f := CodeOf(line, d.inComment);
    var d1 := d.(inComment := f.inComment);
    if f.code.Some? {
      var l := f.code.value;
      if Contains(l, "class ISteam") {
        CodeWithin(line, d.inComment, "class ISteam");
      }
      OutsideCodeSilent(d1, names, l, ifaceOverride);
      assert LineStep(d, names, line, ifaceOverride) == CodeStep(d1, names, l, ifaceOverride);
    } else {
      assert LineStep(d, names, line, ifaceOverride) == Went(d1, names);
    }
  }

  lemma OutsideCodeSilent(d: Doc, names: seq<string>, l: string, ifaceOverride: Option<string>)
    requires d.iface == "" && !Contains(l, "class ISteam")
    ensures CodeStep(d, names, l, ifaceOverride) == Went(Braces(d, l), names)
  {
  }

  /** Forward declarations such as `class ISteamUser;` and the response
      interfaces open nothing: the line is dropped before its braces are
      counted. */
  lemma ForwardDeclarationIgnored(d: Doc, names: seq<string>, line: string, ifaceOverride: Option<string>)
    requires CodeOf(line, d.inComment).code.Some?
    requires var l := CodeOf(line, d.inComment).code.value;
             Contains(l, "class ISteam") && (Contains(l, ";") || Contains(l, "Response"))
    ensures LineStep(d, names, line, ifaceOverride)
            == Went(d.(inComment := CodeOf(line, d.inComment).inComment), names)
  {
  }

  /** A line that opens an interface names it after the class, or after the
      header's alias when one is given, at the current depth. */
  lemma InterfaceOpened(d: Doc, names: seq<string>, line: string, ifaceOverride: Option<string>)
    requires CodeOf(line, d.inComment).code.Some?
    requires var l := CodeOf(line, d.inComment).code.value;
             Contains(l, "class ISteam") && !Contains(l, ";") && !Contains(l, "Response")
             && !Contains(l, "{") && !Contains(l, "}") && !StartsWith(l, "#") && !Contains(l, "virtual")
    requires d.sig.phase == ReturnType
    requires ifaceOverride.Some? ==> ifaceOverride.value != ""
    ensures var r := LineStep(d, names, line, ifaceOverride);
            && r.Went? && r.names == names && r.doc.output == d.output
            && r.doc.depth == d.depth && r.doc.ifaceDepth == d.depth
            && (ifaceOverride.Some? ==> r.doc.iface == ifaceOverride.value)
            && (ifaceOverride.None? ==> StartsWith(r.doc.iface, "ISteam"))
  {
    var l := CodeOf(line, d.inComment).code.value;
    var name := InterfaceName(l, ifaceOverride);
    assert name != "" by {
      if ifaceOverride.None? { assert |name| >= 6; }
    }
  }

  /** A declaration left open at the end of a line writes nothing and skips
      the brace bookkeeping. */
  lemma OpenDeclarationHoldsDepth(d: Doc, names: seq<string>, line: string, ifaceOverride: Option<string>)
    requires d.sig.phase == ReturnType
    requires LineStep(d, names, line, ifaceOverride).Went?
    requires LineStep(d, names, line, ifaceOverride).doc.sig.phase != ReturnType
    ensures var r := LineStep(d, names, line, ifaceOverride);
            r.doc.depth == d.depth && r.doc.output == d.output
  {
    var f := CodeOf(line, d.inComment);
    if f.code.Some? {
      CodeOpenHolds(d.(inComment := f.inComment), names, f.code.value, ifaceOverride);
    }
  }

  lemma CodeOpenHolds(d: Doc, names: seq<string>, l: string, ifaceOverride: Option<string>)
    requires d.sig.phase == ReturnType
    requires var r := CodeStep(d, names, l, ifaceOverride);
             r.Went? && r.doc.sig.phase != ReturnType
    ensures var r := CodeStep(d, names, l, ifaceOverride);
            r.doc.depth == d.depth && r.doc.output == d.output
  {
    var pos := Find(l, "class ISteam");
    if !(pos != -1 && (Contains(l, ";") || Contains(l, "Response"))) {
      var d2 := if pos == -1 then d else d.(iface := InterfaceName(l, ifaceOverride), ifaceDepth := d.depth);
      if d2.iface != "" && !StartsWith(l, "#") && Contains(l, "virtual") {
        assert CodeStep(d, names, l, ifaceOverride) == DeclarationLine(d2, l, names);
        DeclarationOpenHolds(d2, l, names);
      }
    }
  }

  lemma DeclarationOpenHolds(d: Doc, l: string, names: seq<string>)
    requires d.iface != ""
    requires var r := DeclarationLine(d, l, names);
             r.Went? && r.doc.sig.phase != ReturnType
    ensures var r := DeclarationLine(d, l, names);
            r.doc.depth == d.depth && r.doc.output == d.output
  {
    if !Contains(l, "~") {
      var sig0 := if d.sig.phase == ReturnType then Fresh else d.sig;
      var scanned := Scan(SplitWhitespace(l), sig0, d.iface, names);
      assert DeclarationLine(d, l, names) == Completed(d, l, scanned);
      CompletedOpenHolds(d, l, scanned);
    }
  }

  lemma CompletedOpenHolds(d: Doc, l: string, scanned: ScanResult)
    requires var r := Completed(d, l, scanned);
             r.Went? && r.doc.sig.phase != ReturnType
    ensures var r := Completed(d, l, scanned);
            r.doc.depth == d.depth && r.doc.output == d.output
  {
  }

  /** A line that continues an open declaration and still leaves it open
      writes nothing and skips the brace bookkeeping as well. Directive lines
      are excluded: they are copied even in the middle of a declaration. */
  lemma ContinuationHoldsDepth(d: Doc, names: seq<string>, line: string, ifaceOverride: Option<string>)
    requires d.iface != "" && d.sig.phase != ReturnType
    requires ifaceOverride.Some? ==> ifaceOverride.value != ""
    requires CodeOf(line, d.inComment).code.Some? ==> !StartsWith(CodeOf(line, d.inComment).code.value, "#")
    requires LineStep(d, names, line, ifaceOverride).Went?
    requires LineStep(d, names, line, ifaceOverride).doc.sig.phase != ReturnType
    ensures var r := LineStep(d, names, line, ifaceOverride);
            r.doc.depth == d.depth && r.doc.output == d.output
  {
    var f := CodeOf(line, d.inComment);
    if f.code.Some? {
      CodeContinues(d.(inComment := f.inComment), names, f.code.value, ifaceOverride);
    }
  }

  lemma CodeContinues(d: Doc, names: seq<string>, l: string, ifaceOverride: Option<string>)
    requires d.iface != "" && d.sig.phase != ReturnType && !StartsWith(l, "#")
    requires ifaceOverride.Some? ==> ifaceOverride.value != ""
    requires var r := CodeStep(d, names, l, ifaceOverride);
             r.Went? && r.doc.sig.phase != ReturnType
    ensures var r := CodeStep(d, names, l, ifaceOverride);
            r.doc.depth == d.depth && r.doc.output == d.output
  {
    var pos := Find(l, "class ISteam");
    if !(pos != -1 && (Contains(l, ";") || Contains(l, "Response"))) {
      var d2 := if pos == -1 then d else d.(iface := InterfaceName(l, ifaceOverride), ifaceDepth := d.depth);
      assert d2.iface != "" by {
        if pos != -1 && ifaceOverride.None? { assert |d2.iface| >= 6; }
      }
      assert CodeStep(d, names, l, ifaceOverride) == DeclarationLine(d2, l, names);
      DeclarationOpenHolds(d2, l, names);
    }
  }

  /** A complete declaration on one line of an open interface is emitted as
      its wrapper: the exported name is registered, the four wrapper lines
      are appended, and the depth stays. */
  lemma DeclarationLineEmits(d: Doc, names: seq<string>, decl: Declaration, ps: seq<Param>,
                             ifaceOverride: Option<string>)
    requires d.iface != "" && d.sig.phase == ReturnType && !d.inComment
    requires WellFormed(decl) && ParamsOk(ps) && decl.argTokens == ParamsTokens(ps)
    requires forall i :: 0 <= i < |DeclarationTokens(decl)| ==> IsWord(DeclarationTokens(decl)[i])
    requires var line := JoinSpace(DeclarationTokens(decl));
             && !Contains(line, "//") && !Contains(line, "/*") && !Contains(line, "*/")
             && !Contains(line, "class ISteam") && !Contains(line, "~")
             && !Contains(line, "{") && !Contains(line, "}")
    ensures var line := JoinSpace(DeclarationTokens(decl));
            var name := AssignedName(names, d.iface + "_" + decl.name);
            var returnValue := Spaced(decl.returnTokens) + (if decl.starred then "*" else "");
            LineStep(d, names, line, ifaceOverride)
            == Went(d.(sig := Signature(ReturnType, returnValue, name, decl.name, Spaced(decl.argTokens)),
                       output := d.output + WrapperLines(returnValue, name, decl.name,
                                                         Translated(JoinSpace(ParamsTokens(ps)), TypeKeys),
                                                         d.iface, JoinComma(ParamNames(ps)))),
                    names + [name])
  {
    var ts := DeclarationTokens(decl);
    DeclarationTokensReached(d, names, decl, ts, JoinSpace(ts), ifaceOverride);
    SplitWhitespaceJoin(ts);
    DeclarationLineEmitted(d, names, decl, ps, ts, JoinSpace(ts), ifaceOverride);
  }

  lemma DeclarationTokensReached(d: Doc, names: seq<string>, decl: Declaration, ts: seq<string>,
                                 line: string, ifaceOverride: Option<string>)
    requires d.iface != "" && !d.inComment
    requires ts == DeclarationTokens(decl) && line == JoinSpace(ts)
    requires forall i :: 0 <= i < |ts| ==> IsWord(ts[i])
    requires !Contains(line, "//") && !Contains(line, "/*") && !Contains(line, "*/")
    requires !Contains(line, "class ISteam")
    ensures LineStep(d, names, line, ifaceOverride) == DeclarationLine(d, line, names)
  {
    DeclarationLineShape(decl, ts, line);
    DeclarationLineReached(d, names, line, ifaceOverride);
  }

  lemma DeclarationLineEmitted(d: Doc, names: seq<string>, decl: Declaration, ps: seq<Param>,
                               ts: seq<string>, line: string, ifaceOverride: Option<string>)
    requires d.iface != "" && d.sig.phase == ReturnType
    requires WellFormed(decl) && ParamsOk(ps) && decl.argTokens == ParamsTokens(ps)
    requires ts == DeclarationTokens(decl) && SplitWhitespace(line) == ts
    requires !Contains(line, "~") && !Contains(line, "{") && !Contains(line, "}")
    requires LineStep(d, names, line, ifaceOverride) == DeclarationLine(d, line, names)
    ensures var name := AssignedName(names, d.iface + "_" + decl.name);
            var returnValue := Spaced(decl.returnTokens) + (if decl.starred then "*" else "");
            LineStep(d, names, line, ifaceOverride)
            == Went(d.(sig := Signature(ReturnType, returnValue, name, decl.name, Spaced(decl.argTokens)),
                       output := d.output + WrapperLines(returnValue, name, decl.name,
                                                         Translated(JoinSpace(ParamsTokens(ps)), TypeKeys),
                                                         d.iface, JoinComma(ParamNames(ps)))),
                    names + [name])
  {
    DeclarationEmits(d, line, names, decl, ps);
  }

  /** Outside comments and inside an interface, a trimmed line holding
      `virtual` and nothing that comments, opens an interface or is a
      directive goes to the declaration parser. */
  predicate ReachesDeclaration(d: Doc, l: string)
  {
    && d.iface != "" && !d.inComment && Strip(l) == l
    && !Contains(l, "//") && !Contains(l, "/*") && !Contains(l, "*/")
    && !Contains(l, "class ISteam") && !StartsWith(l, "#") && Contains(l, "virtual")
  }

  lemma DeclarationLineReached(d: Doc, names: seq<string>, l: string, ifaceOverride: Option<string>)
    requires ReachesDeclaration(d, l)
    ensures LineStep(d, names, l, ifaceOverride) == DeclarationLine(d, l, names)
  {
    PlainLineStep(d, names, l, ifaceOverride);
    CodeDeclaration(d, names, l, ifaceOverride);
  }

  lemma PlainLineStep(d: Doc, names: seq<string>, l: string, ifaceOverride: Option<string>)
    requires !d.inComment && Strip(l) == l && l != ""
    requires !Contains(l, "//") && !Contains(l, "/*") && !Contains(l, "*/")
    ensures LineStep(d, names, l, ifaceOverride) == CodeStep(d, names, l, ifaceOverride)
  {
    PlainLineKept(l);
    assert d.(inComment := false) == d;
  }

  /** The line a declaration is written on starts with `virtual` and is
      trimmed. */
  lemma DeclarationLineShape(decl: Declaration, ts: seq<string>, line: string)
    requires ts == DeclarationTokens(decl) && line == JoinSpace(ts)
    requires forall i :: 0 <= i < |ts| ==> IsWord(ts[i])
    ensures Contains(line, "virtual") && !StartsWith(line, "#") && Strip(line) == line
  {
    DeclarationShape(decl);
    var rest := ts[1..];
    assert ts == ["virtual"] + rest && |rest| > 0;
    assert line == "virtual" + " " + JoinSpace(rest);
    assert line[..7] == "virtual";
    ContainsAt(line, "virtual", 0);
    assert line[0] == 'v';
    JoinSpaceTrimmed(ts);
    StripTrimmed(line);
  }

  /** Inside an interface, a code line that holds `virtual` and opens no
      interface is a declaration line. */
  lemma CodeDeclaration(d: Doc, names: seq<string>, l: string, ifaceOverride: Option<string>)
    requires d.iface != "" && !Contains(l, "class ISteam") && !StartsWith(l, "#") && Contains(l, "virtual")
    ensures CodeStep(d, names, l, ifaceOverride) == DeclarationLine(d, l, names)
  {
  }

  /** Inside an interface, a code line holding `~` that is no directive
      emits nothing and registers no name; when it would be a declaration
      line it is skipped outright, braces and all. */
  lemma DestructorLineSilent(d: Doc, names: seq<string>, l: string, ifaceOverride: Option<string>)
    requires d.iface != "" && !Contains(l, "class ISteam") && !StartsWith(l, "#") && Contains(l, "~")
    ensures var r := CodeStep(d, names, l, ifaceOverride);
            r.Went? && r.names == names && r.doc.output == d.output
    ensures Contains(l, "virtual") || d.sig.phase != ReturnType ==>
              CodeStep(d, names, l, ifaceOverride) == Went(d, names)
  {
    FindSpec(l, "class ISteam");
  }

  /** The whole declaration on one line registers its exported name and
      appends its wrapper. */
  lemma DeclarationEmits(d: Doc, l: string, names: seq<string>, decl: Declaration, ps: seq<Param>)
    requires d.iface != "" && d.sig.phase == ReturnType
    requires WellFormed(decl) && ParamsOk(ps) && decl.argTokens == ParamsTokens(ps)
    requires SplitWhitespace(l) == DeclarationTokens(decl)
    requires !Contains(l, "~") && !Contains(l, "{") && !Contains(l, "}")
    ensures var name := AssignedName(names, d.iface + "_" + decl.name);
            var returnValue := Spaced(decl.returnTokens) + (if decl.starred then "*" else "");
            DeclarationLine(d, l, names)
            == Went(d.(sig := Signature(ReturnType, returnValue, name, decl.name, Spaced(decl.argTokens)),
                       output := d.output + WrapperLines(returnValue, name, decl.name,
                                                         Translated(JoinSpace(ParamsTokens(ps)), TypeKeys),
                                                         d.iface, JoinComma(ParamNames(ps)))),
                    names + [name])
  {
    var name := AssignedName(names, d.iface + "_" + decl.name);
    var returnValue := Spaced(decl.returnTokens) + (if decl.starred then "*" else "");
    var sig := Signature(ReturnType, returnValue, name, decl.name, Spaced(decl.argTokens));
    var lines := WrapperLines(returnValue, name, decl.name, Translated(JoinSpace(ParamsTokens(ps)), TypeKeys),
                              d.iface, JoinComma(ParamNames(ps)));
    ScanDeclaration(decl, d.iface, names);
    assert Scan(SplitWhitespace(l), Fresh, d.iface, names) == Scanned(sig, names + [name]);
    EmitDeclaration(decl, ps, d.iface, name);
    assert Emit(sig, d.iface) == Some(lines);
    var d' := d.(sig := sig, output := d.output + lines);
    assert Braces(d', l) == d';
  }

  /** A code line of a declaration as the headers write it: no comment
      marks, no interface opening, no destructor, no braces and no
      directive. */
  predicate CleanLine(l: string)
  {
    && !Contains(l, "//") && !Contains(l, "/*") && !Contains(l, "*/")
    && !Contains(l, "class ISteam") && !Contains(l, "~")
    && !Contains(l, "{") && !Contains(l, "}") && !StartsWith(l, "#")
  }

  /** Positions cutting `n` tokens into lines, from 0 to `n`, strictly
      increasing, with every cut after the first `first` tokens. */
  predicate Cuts(cuts: seq<nat>, n: nat, first: nat)
  {
    && |cuts| >= 2 && cuts[0] == 0 && cuts[|cuts| - 1] == n
    && (forall j :: 0 <= j < |cuts| - 1 ==> cuts[j] < cuts[j + 1])
    && (forall j :: 1 <= j < |cuts| ==> first < cuts[j] <= n)
  }

  /** The lines `lines[i..]` hold the declaration's tokens, cut at `cuts`,
      one line per piece, each piece joined by single spaces. The name token
      is on the first line. */
  predicate SplitOver(lines: seq<string>, i: nat, cuts: seq<nat>, decl: Declaration)
  {
    var t := DeclarationTokens(decl);
    && Cuts(cuts, |t|, |decl.returnTokens| + 1)
    && i + |cuts| - 1 <= |lines|
    && (forall j :: 0 <= j < |cuts| - 1 ==>
          lines[i + j] == JoinSpace(t[cuts[j]..cuts[j + 1]])
          && CleanLine(JoinSpace(t[cuts[j]..cuts[j + 1]])))
  }

  /** The signature after the first `k` tokens of a declaration. */
  function MidSig(decl: Declaration, k: nat, iface: string, names: seq<string>): Signature
    requires k <= |DeclarationTokens(decl)|
  {
    var r := Scan(DeclarationTokens(decl)[..k], Fresh, iface, names);
    if r.Scanned? then r.sig else Fresh
  }

  /** The variables after a declaration's wrapper has been emitted. */
  function Emitted(d: Doc, names: seq<string>, decl: Declaration, ps: seq<Param>): Doc
  {
    var name := AssignedName(names, d.iface + "_" + decl.name);
    var returnValue := Spaced(decl.returnTokens) + (if decl.starred then "*" else "");
    d.(sig := Signature(ReturnType, returnValue, name, decl.name, Spaced(decl.argTokens)),
       output := d.output + WrapperLines(returnValue, name, decl.name,
                                         Translated(JoinSpace(ParamsTokens(ps)), TypeKeys),
                                         d.iface, JoinComma(ParamNames(ps))))
  }

  predicate DeclarationOk(decl: Declaration, ps: seq<Param>)
  {
    && WellFormed(decl) && ParamsOk(ps) && decl.argTokens == ParamsTokens(ps)
    && forall k :: 0 <= k < |DeclarationTokens(decl)| ==> IsWord(DeclarationTokens(decl)[k])
  }

  /** A declaration written over several lines, as long as the method name
      is on the first, has the same effect as the one-line declaration of
      `DeclarationLineEmits`: nothing is written until its last line, which
      registers its exported name and appends its four wrapper lines. */
  lemma DeclarationAcrossLines(lines: seq<string>, i: nat, cuts: seq<nat>, d: Doc, names: seq<string>,
                               decl: Declaration, ps: seq<Param>, ifaceOverride: Option<string>)
    requires d.iface != "" && d.sig.phase == ReturnType && !d.inComment
    requires DeclarationOk(decl, ps) && SplitOver(lines, i, cuts, decl)
    ensures RunFrom(lines, i, d, names, ifaceOverride)
            == RunFrom(lines, i + |cuts| - 1, Emitted(d, names, decl, ps),
                       names + [AssignedName(names, d.iface + "_" + decl.name)], ifaceOverride)
  {
    RunLines(lines, i, cuts, 0, d, names, decl, ps, ifaceOverride);
  }

  /** The variables and registry before line `j` of the split declaration. */
  function StateAt(d: Doc, names: seq<string>, decl: Declaration, cuts: seq<nat>, j: nat): (Doc, seq<string>)
    requires j < |cuts| && cuts[j] <= |DeclarationTokens(decl)|
  {
    if j == 0 then (d, names)
    else (d.(sig := MidSig(decl, cuts[j], d.iface, names)),
          names + [AssignedName(names, d.iface + "_" + decl.name)])
  }

  lemma {:induction false} RunLines(lines: seq<string>, i: nat, cuts: seq<nat>, j: nat, d: Doc, names: seq<string>,
                                    decl: Declaration, ps: seq<Param>, ifaceOverride: Option<string>)
    requires d.iface != "" && d.sig.phase == ReturnType && !d.inComment
    requires DeclarationOk(decl, ps) && SplitOver(lines, i, cuts, decl)
    requires j < |cuts| - 1
    ensures var st := StateAt(d, names, decl, cuts, j);
            RunFrom(lines, i + j, st.0, st.1, ifaceOverride)
            == RunFrom(lines, i + |cuts| - 1, Emitted(d, names, decl, ps),
                       names + [AssignedName(names, d.iface + "_" + decl.name)], ifaceOverride)
    decreases |cuts| - j, 1
  {
    if j + 1 < |cuts| - 1 {
      RunMiddleLine(lines, i, cuts, j, d, names, decl, ps, ifaceOverride);
    } else {
      StepLine(lines, i, cuts, j, d, names, decl, ps, ifaceOverride);
      assert StateAfter(d, names, decl, ps, cuts, j) == Emitted(d, names, decl, ps);
    }
  }

  lemma {:induction false} RunMiddleLine(lines: seq<string>, i: nat, cuts: seq<nat>, j: nat, d: Doc, names: seq<string>,
                                         decl: Declaration, ps: seq<Param>, ifaceOverride: Option<string>)
    requires d.iface != "" && d.sig.phase == ReturnType && !d.inComment
    requires DeclarationOk(decl, ps) && SplitOver(lines, i, cuts, decl)
    requires j + 1 < |cuts| - 1
    ensures var st := StateAt(d, names, decl, cuts, j);
            RunFrom(lines, i + j, st.0, st.1, ifaceOverride)
            == RunFrom(lines, i + |cuts| - 1, Emitted(d, names, decl, ps),
                       names + [AssignedName(names, d.iface + "_" + decl.name)], ifaceOverride)
    decreases |cuts| - j, 0
  {
    RunLines(lines, i, cuts, j + 1, d, names, decl, ps, ifaceOverride);
    MiddleStep(lines, i, cuts, j, d, names, decl, ps, ifaceOverride);
  }

  lemma MiddleStep(lines: seq<string>, i: nat, cuts: seq<nat>, j: nat, d: Doc, names: seq<string>,
                   decl: Declaration, ps: seq<Param>, ifaceOverride: Option<string>)
    requires d.iface != "" && d.sig.phase == ReturnType && !d.inComment
    requires DeclarationOk(decl, ps) && SplitOver(lines, i, cuts, decl)
    requires j + 1 < |cuts| - 1
    ensures var st := StateAt(d, names, decl, cuts, j);
            var nx := StateAt(d, names, decl, cuts, j + 1);
            RunFrom(lines, i + j, st.0, st.1, ifaceOverride) == RunFrom(lines, i + (j + 1), nx.0, nx.1, ifaceOverride)
  {
    var n1 := names + [AssignedName(names, d.iface + "_" + decl.name)];
    StepLine(lines, i, cuts, j, d, names, decl, ps, ifaceOverride);
    assert StateAt(d, names, decl, cuts, j + 1) == (StateAfter(d, names, decl, ps, cuts, j), n1);
  }

  /** The variables after line `j` of the split declaration. */
  function StateAfter(d: Doc, names: seq<string>, decl: Declaration, ps: seq<Param>, cuts: seq<nat>, j: nat): Doc
    requires j + 1 < |cuts| && cuts[j + 1] <= |DeclarationTokens(decl)|
  {
    if j + 1 < |cuts| - 1 then StateAt(d, names, decl, cuts, j + 1).0 else Emitted(d, names, decl, ps)
  }

  /** One line of the split declaration: every line but the last leaves it
      open, the last emits it. */
  lemma StepLine(lines: seq<string>, i: nat, cuts: seq<nat>, j: nat, d: Doc, names: seq<string>,
                 decl: Declaration, ps: seq<Param>, ifaceOverride: Option<string>)
    requires d.iface != "" && d.sig.phase == ReturnType && !d.inComment
    requires DeclarationOk(decl, ps) && SplitOver(lines, i, cuts, decl)
    requires j < |cuts| - 1
    ensures var st := StateAt(d, names, decl, cuts, j);
            RunFrom(lines, i + j, st.0, st.1, ifaceOverride)
            == RunFrom(lines, i + j + 1, StateAfter(d, names, decl, ps, cuts, j),
                       names + [AssignedName(names, d.iface + "_" + decl.name)], ifaceOverride)
  {
    var st := StateAt(d, names, decl, cuts, j);
    var n1 := names + [AssignedName(names, d.iface + "_" + decl.name)];
    LineWent(lines, i, cuts, j, d, names, decl, ps, ifaceOverride);
    RunStep(lines, i + j, st.0, st.1, StateAfter(d, names, decl, ps, cuts, j), n1, ifaceOverride);
  }

  /** Past the last line the run finishes with the output it has. */
  lemma RunEnd(lines: seq<string>, d: Doc, names: seq<string>, ifaceOverride: Option<string>, goal: DocResult)
    requires RunFrom(lines, |lines|, d, names, ifaceOverride) == goal
    ensures goal == Finished(d.output, names)
  {
  }

  /** One line of the run: where it goes on, the run goes on from the next
      line; where it crashes, the run fails with the names it had. */
  lemma RunLine(lines: seq<string>, k: nat, d: Doc, names: seq<string>, r: LineResult,
                ifaceOverride: Option<string>, goal: DocResult)
    requires k < |lines| && r == LineStep(d, names, lines[k], ifaceOverride)
    requires RunFrom(lines, k, d, names, ifaceOverride) == goal
    ensures r.Went? ==> RunFrom(lines, k + 1, r.doc, r.names, ifaceOverride) == goal
    ensures r.Crashed? ==> goal == Failed(r.names)
  {
  }


  lemma RunStep(lines: seq<string>, k: nat, d: Doc, names: seq<string>, d': Doc, names': seq<string>,
                ifaceOverride: Option<string>)
    requires k < |lines| && LineStep(d, names, lines[k], ifaceOverride) == Went(d', names')
    ensures RunFrom(lines, k, d, names, ifaceOverride) == RunFrom(lines, k + 1, d', names', ifaceOverride)
  {
  }

  lemma LineWent(lines: seq<string>, i: nat, cuts: seq<nat>, j: nat, d: Doc, names: seq<string>,
                 decl: Declaration, ps: seq<Param>, ifaceOverride: Option<string>)
    requires d.iface != "" && d.sig.phase == ReturnType && !d.inComment
    requires DeclarationOk(decl, ps) && SplitOver(lines, i, cuts, decl)
    requires j < |cuts| - 1
    ensures var st := StateAt(d, names, decl, cuts, j);
            LineStep(st.0, st.1, lines[i + j], ifaceOverride)
            == Went(StateAfter(d, names, decl, ps, cuts, j), names + [AssignedName(names, d.iface + "_" + decl.name)])
  {
    var t := DeclarationTokens(decl);
    var k := cuts[j + 1];
    var st := StateAt(d, names, decl, cuts, j);
    LineScans(lines, i, cuts, j, d, names, decl, ps, ifaceOverride);
    var l := lines[i + j];
    if j + 1 < |cuts| - 1 {
      assert cuts[j + 1] < cuts[j + 2];
      OpenPrefix(decl, k, d.iface, names);
    } else {
      assert t[..k] == t;
      FinishedLine(st.0, l, d, names, decl, ps);
    }
  }

  /** The last line: the declaration is complete and its wrapper emitted. */
  lemma FinishedLine(dj: Doc, l: string, d: Doc, names: seq<string>, decl: Declaration, ps: seq<Param>)
    requires DeclarationOk(decl, ps) && CleanLine(l)
    requires dj == d.(sig := dj.sig)
    ensures Completed(dj, l, Scan(DeclarationTokens(decl), Fresh, d.iface, names))
            == Went(Emitted(d, names, decl, ps), names + [AssignedName(names, d.iface + "_" + decl.name)])
  {
    var name := AssignedName(names, d.iface + "_" + decl.name);
    var returnValue := Spaced(decl.returnTokens) + (if decl.starred then "*" else "");
    var sig := Signature(ReturnType, returnValue, name, decl.name, Spaced(decl.argTokens));
    ScanDeclaration(decl, d.iface, names);
    EmitDeclaration(decl, ps, d.iface, name);
    var d' := Emitted(d, names, decl, ps);
    assert dj.(sig := sig, output := dj.output + WrapperLines(returnValue, name, decl.name,
              Translated(JoinSpace(ParamsTokens(ps)), TypeKeys), d.iface, JoinComma(ParamNames(ps)))) == d';
    assert Braces(d', l) == d';
  }

  /** A line of the split declaration reaches the token machine, which sees
      the tokens of all lines so far as one run. */
  lemma LineScans(lines: seq<string>, i: nat, cuts: seq<nat>, j: nat, d: Doc, names: seq<string>,
                  decl: Declaration, ps: seq<Param>, ifaceOverride: Option<string>)
    requires d.iface != "" && d.sig.phase == ReturnType && !d.inComment
    requires DeclarationOk(decl, ps) && SplitOver(lines, i, cuts, decl)
    requires j < |cuts| - 1
    ensures var st := StateAt(d, names, decl, cuts, j);
            LineStep(st.0, st.1, lines[i + j], ifaceOverride)
            == Completed(st.0, lines[i + j], Scan(DeclarationTokens(decl)[..cuts[j + 1]], Fresh, d.iface, names))
  {
    var t := DeclarationTokens(decl);
    var l := lines[i + j];
    assert l == JoinSpace(t[cuts[j]..cuts[j + 1]]) && CleanLine(l);
    if j == 0 {
      FirstPiece(decl, ps, cuts[1], l, d, names, ifaceOverride);
    } else {
      LaterPiece(decl, ps, cuts[j], cuts[j + 1], l, d, names, ifaceOverride);
    }
  }

  /** The first line: the declaration opens. */
  lemma FirstPiece(decl: Declaration, ps: seq<Param>, b: nat, l: string, d: Doc, names: seq<string>,
                   ifaceOverride: Option<string>)
    requires d.iface != "" && d.sig.phase == ReturnType && !d.inComment
    requires DeclarationOk(decl, ps) && 0 < b <= |DeclarationTokens(decl)|
    requires l == JoinSpace(DeclarationTokens(decl)[0..b]) && CleanLine(l)
    ensures LineStep(d, names, l, ifaceOverride)
            == Completed(d, l, Scan(DeclarationTokens(decl)[..b], Fresh, d.iface, names))
  {
    var t := DeclarationTokens(decl);
    var piece := t[0..b];
    PieceLine(t, 0, b);
    PlainLineKept(l);
    assert d.(inComment := false) == d;
    assert LineStep(d, names, l, ifaceOverride) == CodeStep(d, names, l, ifaceOverride);
    FirstLineScans(l, piece, d, names, ifaceOverride);
    AdjacentSlices(t, 0, b);
  }

  /** A later line: the open declaration takes its tokens. */
  lemma LaterPiece(decl: Declaration, ps: seq<Param>, a: nat, b: nat, l: string, d: Doc, names: seq<string>,
                   ifaceOverride: Option<string>)
    requires d.iface != "" && d.sig.phase == ReturnType && !d.inComment
    requires DeclarationOk(decl, ps) && |decl.returnTokens| + 1 < a < b <= |DeclarationTokens(decl)|
    requires l == JoinSpace(DeclarationTokens(decl)[a..b]) && CleanLine(l)
    ensures var dj := d.(sig := MidSig(decl, a, d.iface, names));
            LineStep(dj, names + [AssignedName(names, d.iface + "_" + decl.name)], l, ifaceOverride)
            == Completed(dj, l, Scan(DeclarationTokens(decl)[..b], Fresh, d.iface, names))
  {
    var t := DeclarationTokens(decl);
    var dj := d.(sig := MidSig(decl, a, d.iface, names));
    var n1 := names + [AssignedName(names, d.iface + "_" + decl.name)];
    PieceLine(t, a, b);
    PlainLineKept(l);
    assert dj.(inComment := false) == dj;
    assert LineStep(dj, n1, l, ifaceOverride) == CodeStep(dj, n1, l, ifaceOverride);
    OpenPrefix(decl, a, d.iface, names);
    LaterLineScans(t, a, b, l, dj, names, ifaceOverride);
    AdjacentSlices(t, a, b);
  }

  lemma AdjacentSlices<T>(t: seq<T>, a: nat, b: nat)
    requires a <= b <= |t|
    ensures t[..a] + t[a..b] == t[..b]
  {
  }

  lemma FirstLineScans(l: string, piece: seq<string>, d: Doc, names: seq<string>, ifaceOverride: Option<string>)
    requires d.iface != "" && d.sig.phase == ReturnType && CleanLine(l)
    requires |piece| > 0 && piece[0] == "virtual" && l == JoinSpace(piece) && SplitWhitespace(l) == piece
    ensures CodeStep(d, names, l, ifaceOverride) == Completed(d, l, Scan(piece, Fresh, d.iface, names))
  {
    LeadContains(piece);
    CodeDeclaration(d, names, l, ifaceOverride);
  }

  lemma LaterLineScans(t: seq<string>, a: nat, b: nat, l: string, dj: Doc, names: seq<string>,
                       ifaceOverride: Option<string>)
    requires a <= b <= |t| && dj.iface != "" && CleanLine(l) && SplitWhitespace(l) == t[a..b]
    requires var r := Scan(t[..a], Fresh, dj.iface, names);
             r.Scanned? && r.sig.phase != ReturnType && dj.sig == r.sig
    ensures var r := Scan(t[..a], Fresh, dj.iface, names);
            CodeStep(dj, r.names, l, ifaceOverride) == Completed(dj, l, Scan(t[..a] + t[a..b], Fresh, dj.iface, names))
  {
    CodeContinuation(dj, Scan(t[..a], Fresh, dj.iface, names).names, l, ifaceOverride);
    ScanAcrossLines(t[..a], t[a..b], Fresh, dj.iface, names);
  }

  /** A piece of a declaration's tokens, joined by spaces, is a trimmed
      non-empty line that splits back into the piece. */
  lemma PieceLine(t: seq<string>, a: nat, b: nat)
    requires a < b <= |t| && forall k :: 0 <= k < |t| ==> IsWord(t[k])
    ensures var l := JoinSpace(t[a..b]);
            Strip(l) == l && l != "" && SplitWhitespace(l) == t[a..b]
  {
    var piece := t[a..b];
    assert forall k :: 0 <= k < |piece| ==> IsWord(piece[k]) by {
      forall k | 0 <= k < |piece| ensures IsWord(piece[k]) { assert piece[k] == t[a + k]; }
    }
    JoinSpaceTrimmed(piece);
    JoinSpaceHead(piece);
    StripTrimmed(JoinSpace(piece));
    SplitWhitespaceJoin(piece);
  }

  /** Words joined by spaces contain their first word. */
  lemma LeadContains(ws: seq<string>)
    requires |ws| > 0
    ensures Contains(JoinSpace(ws), ws[0])
  {
    if |ws| > 1 {
      assert JoinSpace(ws) == ws[0] + (" " + JoinSpace(ws[1..]));
      Affixes(ws[0], " " + JoinSpace(ws[1..]));
    } else {
      assert JoinSpace(ws)[0..] == ws[0];
    }
    ContainsAt(JoinSpace(ws), ws[0], 0);
  }

  /** Inside an interface, a code line that opens no interface and is no
      directive continues an open declaration. */
  lemma CodeContinuation(d: Doc, names: seq<string>, l: string, ifaceOverride: Option<string>)
    requires d.iface != "" && !Contains(l, "class ISteam") && !StartsWith(l, "#") && d.sig.phase != ReturnType
    ensures CodeStep(d, names, l, ifaceOverride) == DeclarationLine(d, l, names)
  {
  }

  /** A `virtual` line whose tokens never reach a `(`, such as `virtual bool`
      on its own, leaves the machine in its return-type state, so the line
      counts as a complete declaration: a wrapper without a method name and
      without parameters is appended, and the registry stays as it was. */
  lemma BareVirtualLineEmits(d: Doc, names: seq<string>, t: seq<string>, ifaceOverride: Option<string>)
    requires d.iface != "" && d.sig.phase == ReturnType && !d.inComment
    requires |t| > 0 && t[0] == "virtual" && forall k :: 0 <= k < |t| ==> IsWord(t[k])
    requires forall k :: 1 <= k < |t| ==> PlainTypeToken(t[k])
    requires CleanLine(JoinSpace(t))
    ensures LineStep(d, names, JoinSpace(t), ifaceOverride)
            == Went(d.(sig := Signature(ReturnType, Spaced(t[1..]), "", "", ""),
                       output := d.output + WrapperLines(Spaced(t[1..]), "", "", "", d.iface, "")),
                    names)
  {
    var l := JoinSpace(t);
    var sig := Signature(ReturnType, Spaced(t[1..]), "", "", "");
    var lines := WrapperLines(Spaced(t[1..]), "", "", "", d.iface, "");
    BareVirtualReachesScan(d, names, t, ifaceOverride);
    BareVirtualScan(t, d.iface, names);
    EmptyEmit(Spaced(t[1..]), d.iface);
    var d' := d.(sig := sig, output := d.output + lines);
    assert Braces(d', l) == d';
  }

  lemma EmptyEmit(returnValue: string, iface: string)
    ensures Emit(Signature(ReturnType, returnValue, "", "", ""), iface)
            == Some(WrapperLines(returnValue, "", "", "", iface, ""))
  {
    TranslatedUntouched("", TypeKeys);
  }

  lemma BareVirtualReachesScan(d: Doc, names: seq<string>, t: seq<string>, ifaceOverride: Option<string>)
    requires d.iface != "" && !d.inComment
    requires |t| > 0 && t[0] == "virtual" && forall k :: 0 <= k < |t| ==> IsWord(t[k])
    requires CleanLine(JoinSpace(t))
    ensures LineStep(d, names, JoinSpace(t), ifaceOverride) == DeclarationLine(d, JoinSpace(t), names)
    ensures SplitWhitespace(JoinSpace(t)) == t
  {
    var l := JoinSpace(t);
    JoinSpaceTrimmed(t);
    JoinSpaceHead(t);
    StripTrimmed(l);
    SplitWhitespaceJoin(t);
    LeadContains(t);
    DeclarationLineReached(d, names, l, ifaceOverride);
  }

  lemma BareVirtualScan(t: seq<string>, iface: string, names: seq<string>)
    requires |t| > 0 && t[0] == "virtual" && forall k :: 1 <= k < |t| ==> PlainTypeToken(t[k])
    ensures Scan(t, Fresh, iface, names) == Scanned(Signature(ReturnType, Spaced(t[1..]), "", "", ""), names)
  {
    var rt := t[1..];
    assert t == ["virtual"] + rt;
    VirtualSkipped(rt, Fresh, iface, names);
    ScanReturnTokens(rt, [], Fresh, iface, names);
    assert rt + [] == rt;
  }

  /** The generator as the source runs it: the registry of exported names is
      the object's state, carried from one header to the next. */
  class WrapperGenerator {
    var methodNames: seq<string>

    constructor()
      ensures methodNames == []
    {
      methodNames := [];
    }

    /** One header: its output lines, or `None` when the source would stop
        with an index error (the names registered until then stay). */
    method ProcessDocument(lines: seq<string>, ifaceOverride: Option<string>) returns (output: Option<seq<string>>)
      modifies this
      ensures var r := RunFrom(lines, 0, Start, old(methodNames), ifaceOverride);
              methodNames == r.names && output == (if r.Finished? then Some(r.output) else None)
    {
      var doc := Start;
      var i := 0;
      ghost var goal := RunFrom(lines, 0, Start, methodNames, ifaceOverride);
      while i < |lines|
        invariant 0 <= i <= |lines|
        invariant RunFrom(lines, i, doc, methodNames, ifaceOverride) == goal
        decreases |lines| - i
      {
        var r := ProcessLineOf(lines, i, doc, ifaceOverride, goal);
        if r.Crashed? {
          return None;
        }
        doc := r.doc;
        i := i + 1;
      }
      RunEnd(lines, doc, methodNames, ifaceOverride, goal);
      output := Some(doc.output);
    }

    /** Line `i` of a header, seen from the run over the whole header: the
        run from it either fails here or goes on from the next line. */
    method ProcessLineOf(lines: seq<string>, i: nat, doc: Doc, ifaceOverride: Option<string>, ghost goal: DocResult)
      returns (r: LineResult)
      requires i < |lines| && RunFrom(lines, i, doc, methodNames, ifaceOverride) == goal
      modifies this
      ensures methodNames == r.names
      ensures r.Went? ==> RunFrom(lines, i + 1, r.doc, r.names, ifaceOverride) == goal
      ensures r.Crashed? ==> goal == Failed(r.names)
    {
      var before := methodNames;
      r := ProcessLine(doc, lines[i], ifaceOverride);
      RunLine(lines, i, doc, before, r, ifaceOverride, goal);
    }

    /** The body of the source's line loop. */
    method ProcessLine(d: Doc, line: string, ifaceOverride: Option<string>) returns (r: LineResult)
      modifies this
      ensures r == LineStep(d, old(methodNames), line, ifaceOverride) && methodNames == r.names
    {
      var f := CodeOf(line, d.inComment);
      var d' := d.(inComment := f.inComment);
      if f.code.None? {
        return Went(d', methodNames);
      }
      var l := f.code.value;
      var pos := Find(l, "class ISteam");
      if pos != -1 {
        if Contains(l, ";") || Contains(l, "Response") {
          return Went(d', methodNames);
        }
        d' := d'.(iface := InterfaceName(l, ifaceOverride), ifaceDepth := d'.depth);
      }
      if d'.iface != "" {
        if StartsWith(l, "#") {
          var o := Directive(l);
          if o.None? {
            return Crashed(methodNames);
          }
          d' := d'.(output := d'.output + [o.value]);
        } else if Contains(l, "virtual") || d'.sig.phase != ReturnType {
          r := ProcessDeclaration(d', l);
          return;
        }
      }
      r := Went(Braces(d', l), methodNames);
    }

    /** A declaration line: scan its tokens on from the open signature and,
        once the declaration is complete, emit its wrapper. */
    method ProcessDeclaration(d: Doc, l: string) returns (r: LineResult)
      requires d.iface != ""
      modifies this
      ensures r == DeclarationLine(d, l, old(methodNames)) && methodNames == r.names
    {
      if Contains(l, "~") {
        return Went(d, methodNames);
      }
      var sig := if d.sig.phase == ReturnType then Fresh else d.sig;
      var ok;
      sig, ok := ScanTokens(SplitWhitespace(l), sig, d.iface);
      if !ok {
        return Crashed(methodNames);
      }
      if sig.phase != ReturnType {
        return Went(d.(sig := sig), methodNames);
      }
      var lines := EmitWrapper(sig, d.iface);
      if lines.None? {
        return Crashed(methodNames);
      }
      r := Went(Braces(d.(sig := sig, output := d.output + lines.value), l), methodNames);
    }

    /** The source's token loop over one line: each token through the state
        machine, registering exported names as method names are met. */
    method ScanTokens(tokens: seq<string>, sig0: Signature, iface: string) returns (sig: Signature, ok: bool)
      modifies this
      ensures Scan(tokens, sig0, iface, old(methodNames))
              == if ok then Scanned(sig, methodNames) else ScanFault(methodNames)
    {
      sig := sig0;
      var i := 0;
      while i < |tokens|
        invariant 0 <= i <= |tokens|
        invariant Scan(tokens[i..], sig, iface, methodNames) == Scan(tokens, sig0, iface, old(methodNames))
        decreases |tokens| - i
      {
        assert tokens[i..][0] == tokens[i] && tokens[i..][1..] == tokens[i + 1..];
        var step := TokenStep(sig, tokens[i], iface, methodNames);
        methodNames := step.names;
        if step.Fault? {
          return sig, false;
        }
        sig := step.sig;
        if step.Stop? {
          return sig, true;
        }
        i := i + 1;
      }
      assert tokens[i..] == [];
      ok := true;
    }
  }
}
