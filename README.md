# CSteamworks wrapper generator, modelled in Dafny

`CSteamworks.py` reads the Steamworks SDK's C++ interface headers
(`isteamuser.h`, `isteamfriends.h`, ...) and writes, for every pure virtual
method of every `class ISteam...` interface, a flat C function that forwards
the call through the interface's global accessor:

    SB_API <return type> S_CALLTYPE ISteamUser_GetSteamID(<typed params>) {
    	return SteamUser()->GetSteamID(<param names>);
    }

This project models the per-header pass of that script (the loop of
`CSteamworks.py:80-275`) and proves what it does:

- `TextOps` (`text.dfy`): Python's string operations as the script uses
  them: `find`, `in`, `startswith`, `endswith`, `strip` and its one-sided
  forms, `split()`, `split(c)`, `lstrip(c)` and `replace`. Whitespace is
  Python's `str.isspace` set.
- `Registry` (`registry.dfy`): the run-wide list of exported names
  (`g_methodnames`) and the single-underscore collision rule.
- `SignatureParser` (`signature.dfy`): the five-state token machine
  (return type, method name, arguments, awaiting `;`, skipping an
  annotation) that assembles one declaration across lines.
- `ArgumentCanonicalizer` (`canon.dfy`): the loop that turns the typed
  parameter text into the list of forwarded parameter names.
- `Emitter` (`emit.dfy`): the type table, the `CSteamID` return rewrite and
  the four emitted lines.
- `Generator` (`generator.dfy`): comment stripping, interface and brace
  tracking, preprocessor lines, and the class `WrapperGenerator`. The class
  owns the name registry and processes one header at a time, as the
  script's loop over files does.

The loops are modelled as methods with `while` loops:

- the line loop is `WrapperGenerator.ProcessDocument`;
- the token loop is `WrapperGenerator.ScanTokens`;
- the canonicaliser is `Canonicalize` / `CanonLoop`;
- the type-table loop is `TranslateTypes`.

Each method is proved equal to a function (`RunFrom` from the first line,
which is `Generate`; `Scan`; `Forwarding`; `Translated`), and the
properties are proved about those functions.

A Python `IndexError` ends the script. The model makes it an explicit
outcome: `Crashed` for a line, `Failed` for a header, and `None` from
`ProcessDocument`. The names registered before the error are kept. The
cases are:

- `#ifdef` or `#ifndef` without a name;
- a lone `*` as the method-name token;
- a `*name` token with no `(`;
- an empty piece in the canonicaliser, for example from `char * p`.

An interface that is not open is the empty string, which matches Python's
`if iface:` test.

The model follows the code, including where it departs from what one might
expect:

- Brace depth moves by at most one per line, since the test is `'{' in line`.
- A line that leaves through `continue` skips the brace bookkeeping. Such
  lines are forward declarations, `Response` classes, `~` lines and lines
  that leave a declaration open.
- A line holding both `/*` and `*/` keeps only the text after `*/`.
- A third method with the same exported name gets the same name as the
  second.
- A `virtual` line whose tokens never reach a `(`, such as `virtual bool`
  on its own, leaves the token machine in its return-type state. The line
  therefore counts as a complete declaration: a wrapper with an empty method
  name and no parameters is written, and no name is registered
  (`BareVirtualLineEmits`). The interface headers never hold such a line.
- Inside an open declaration, a line starting with `#` is still copied as a
  directive, in the middle of the wrapper being gathered.

## Model

| member | source | states |
|---|---|---|
| TextOps.Find | CSteamworks.py:100-103 | `find` gives -1 or a position within the text, and a pattern found there fits in the text |
| TextOps.FindSpec | CSteamworks.py:100-103 | `find` returns the first position where the pattern starts, or -1 exactly when it occurs nowhere |
| TextOps.BeforeFirst | CSteamworks.py:96 | `split(p, 1)[0]`: when `p` occurs, exactly the text before its first occurrence, which is where `p` starts; otherwise the whole text; the result never holds `p` |
| TextOps.AfterFirst | CSteamworks.py:117 | the text after the first `*/`: the suffix that starts right after the first occurrence ends |
| TextOps.LStrip | CSteamworks.py:96 | `lstrip()` removes exactly the leading whitespace: a suffix, only whitespace dropped, no whitespace left in front |
| TextOps.RStrip | CSteamworks.py:223 | `rstrip()` removes exactly the trailing whitespace: a prefix, only whitespace dropped, no whitespace left at the end |
| TextOps.Strip | CSteamworks.py:96 | `strip()` is a slice of the text with only whitespace before and after it, and with no whitespace at either end |
| TextOps.StripTrimmed | CSteamworks.py:146 | `strip()` of text with no whitespace at either end is that text |
| TextOps.StripContains | CSteamworks.py:96-122 | anything found in a stripped line was in the line |
| TextOps.SplitWhitespace | CSteamworks.py:157 | `split()` yields only non-empty words without whitespace; it is empty exactly for all-whitespace text; the first word is the leading run after the leading whitespace |
| TextOps.SplitWhitespaceJoin | CSteamworks.py:157 | `split()` of words joined by single spaces gives back exactly those words |
| TextOps.SplitWhitespaceLayout | CSteamworks.py:157 | `split()` of words laid out with any whitespace before, between (at least one character) and after them gives back exactly those words |
| TextOps.SplitChar | CSteamworks.py:176 | `split(c)`: no piece holds `c`; one piece exactly when `c` does not occur; the first piece is the text before the first `c` |
| TextOps.SplitCharJoin | CSteamworks.py:176 | joining the pieces of `split(c)` with `c` gives back the text |
| TextOps.JoinSpaceOn | CSteamworks.py:226 | joining with single spaces is joining with the character `' '` |
| TextOps.SplitSpaceJoin | CSteamworks.py:226 | `split(' ')` of space-free pieces joined by single spaces gives back exactly those pieces |
| TextOps.LStripChar | CSteamworks.py:229 | `lstrip('*')` never leaves a `*` in front |
| TextOps.LStripCharSuffix | CSteamworks.py:229 | `lstrip('*')` removes exactly the leading `*`s and leaves a suffix not starting with `*` |
| TextOps.DropFirst | CSteamworks.py:260-263 | `iface[1:]` drops exactly the first character, and the empty text stays empty |
| TextOps.Replace | CSteamworks.py:251 | `replace` leaves text without the key unchanged |
| TextOps.ReplaceFirst | CSteamworks.py:251 | `replace` copies the text before the first occurrence of the key, puts the replacement in its place and goes on after it |
| TextOps.ReplaceLonger | CSteamworks.py:251 | replacing a key by a text at least as long never shortens the text |
| Registry.AssignedName | CSteamworks.py:177-181 | the base name is kept exactly when it is not taken; otherwise one `_` is appended; when that name is free too the result is new |
| Registry.SecondAndThirdCollide | CSteamworks.py:179-181 | for a fresh base, the first gets the base, the second base + `_`, and the third the same name as the second |
| SignatureParser.PrefixInitial | CSteamworks.py:195 | a token is an annotation exactly when it starts with one of the listed prefixes |
| SignatureParser.AnnotationInitial | CSteamworks.py:195 | every annotation token starts with `A`, `B`, `D` or `O` |
| SignatureParser.ScanAwait | CSteamworks.py:209-213 | in state 3 the tokens before the first one ending in `;` are passed over, that one completes the declaration, the rest of the line is not looked at, and nothing is registered |
| SignatureParser.ArgsBlock | CSteamworks.py:193-213 | in state 2 the token loop ends only on a token ending in `;`; otherwise the state is 2, 3 or 4; nothing is registered |
| SignatureParser.ArgTokenStep | CSteamworks.py:206-207 | in state 2 a plain argument token is added to the argument text followed by a space |
| SignatureParser.ArgCloseAttached | CSteamworks.py:202-205 | in state 2 a non-annotation token ending in `)` but not starting with it adds all but its last character and moves to state 3 |
| SignatureParser.ArgCloseLeading | CSteamworks.py:200-213 | in state 2 a token starting with `)` adds nothing and moves to state 3, completing the declaration at once when it ends in `;` |
| SignatureParser.MethodNameBlock | CSteamworks.py:173-191 | the method-name state registers exactly one name, prefixed by the interface and `_`, and moves on to the argument, terminator or annotation state |
| SignatureParser.ExportedNamePrefix | CSteamworks.py:177-180 | every exported name starts with the interface name and `_` |
| SignatureParser.ReturnTypeBlock | CSteamworks.py:164-191 | in state 0 at most one name is registered, with the interface prefix; a token staying in state 0 registers nothing and leaves the name alone |
| SignatureParser.TokenStep | CSteamworks.py:158-218 | one token registers at most one name, always with the interface prefix, and never leaves the machine in the method-name state |
| SignatureParser.Scan | CSteamworks.py:157-218 | the token loop only appends to the registry and never ends in the method-name state |
| SignatureParser.ScanAcrossLines | CSteamworks.py:147-221 | a declaration left open by one line's tokens continues on the next line's tokens exactly as if they had been one line |
| SignatureParser.SpacedJoin | CSteamworks.py:164-207 | the text gathered as `token + ' '` is, stripped, the tokens joined by single spaces |
| SignatureParser.ReturnTokenStep | CSteamworks.py:164-169 | a return-type token without `*` or `(` is added to the return type followed by a space |
| SignatureParser.ScanReturnTokens | CSteamworks.py:164-169 | the tokens before the one holding `(` form the return type, each followed by a space |
| SignatureParser.ScanArgTokens | CSteamworks.py:200-207 | plain argument tokens are added to the argument text in order, each followed by a space |
| SignatureParser.ScanSkipped | CSteamworks.py:215-218 | in state 4 every token up to and including the one ending in `)` is discarded and the argument state resumes |
| SignatureParser.AnnotationDropped | CSteamworks.py:195-218 | an annotation token is never added: one ending in `)` is dropped alone, otherwise it and everything up to the next token ending in `)` are |
| SignatureParser.MethodNameToken | CSteamworks.py:164-191 | the name token adds its `*` to the return type, records the real and exported names, registers the exported name, and goes to state 3 for `()` or state 2 for `(` |
| SignatureParser.VirtualSkipped | CSteamworks.py:161-162 | `virtual` tokens are skipped |
| SignatureParser.TerminatorTail | CSteamworks.py:209-213 | `= 0;` after `()` completes the declaration |
| SignatureParser.CloseTail | CSteamworks.py:200-213 | `) = 0;` after the arguments completes the declaration |
| SignatureParser.ScanDeclaration | CSteamworks.py:151-218 | a well-formed declaration scans to its return type, its exported name, its real name and its argument text, and registers exactly that one name |
| SignatureParser.OpenPrefix | CSteamworks.py:157-221 | a well-formed declaration cut anywhere after its name token and before its last token is still open, with its one name registered |
| ArgumentCanonicalizer.SpelledChecks | CSteamworks.py:230-242 | the `== '='` test and the `endswith(',')` / `token[-1] == ','` tests mean what they say |
| ArgumentCanonicalizer.PieceStep | CSteamworks.py:228-245 | one piece: the index error exactly for an empty piece outside a default value; the forwarding text only grows; outside a default value only `=` starts one |
| ArgumentCanonicalizer.CanonFrom | CSteamworks.py:226-245 | the loop over the pieces only appends to the forwarding text |
| ArgumentCanonicalizer.Forwarding | CSteamworks.py:223-246 | empty argument text forwards nothing; a forwarding list never ends in whitespace |
| ArgumentCanonicalizer.Canonicalize | CSteamworks.py:223-246 | the canonicaliser gives the forwarding list the loop defines, and the empty list for empty argument text |
| ArgumentCanonicalizer.CanonLoop | CSteamworks.py:226-245 | the loop with its `bInDefaultArgs` flag computes the fold over the pieces, including the index error on an empty piece |
| ArgumentCanonicalizer.SlotStep | CSteamworks.py:228-245 | the pieces of one parameter add its name, with `, ` unless it is the last, whether or not it has a default value |
| ArgumentCanonicalizer.SlotsStep | CSteamworks.py:228-245 | over a run of parameters the loop gathers their names joined by `, ` |
| ArgumentCanonicalizer.ForwardingParams | CSteamworks.py:223-246 | for a well-formed parameter list, the forwarding list is the parameter names in declared order joined by `, `, with types, `*`s and default values gone |
| Emitter.Translated | CSteamworks.py:249-251 | applying the type table never shortens the parameter text |
| Emitter.TranslatedUntouched | CSteamworks.py:249-251 | parameter text holding no table key is not changed |
| Emitter.ReplaceIntroduces | CSteamworks.py:251 | replacing a key that occurs leaves its replacement in the text |
| Emitter.TranslatedQualifiesLast | CSteamworks.py:249-251 | `EHTMLKeyModifiers`, when present, comes out qualified with `ISteamHTMLSurface::` |
| Emitter.TranslateTypes | CSteamworks.py:249-251 | the loop over the type table applies every key in order |
| Emitter.ExportedReturn | CSteamworks.py:253-257 | the return type is stripped; a `CSteamID` return becomes `SteamID_t` and asks for the conversion; no exported return is `CSteamID` |
| Emitter.WrapperLines | CSteamworks.py:253-265 | four lines: the header `SB_API <type> S_CALLTYPE <name>(<args>) {` with `SteamID_t` for a `CSteamID` return, the call through `<iface[1:]>()` ending in `.ConvertToUint64();` exactly for a `CSteamID` return and in `);` otherwise, then `}` and an empty line |
| Emitter.ConvertedCall | CSteamworks.py:253-261 | for a `CSteamID` return, the header exports `SteamID_t` and the call converts its result with `.ConvertToUint64()` |
| Emitter.PlainCall | CSteamworks.py:259-263 | for any other return, the header exports the stripped type and the call's result is returned as it is |
| Emitter.CallThroughAccessor | CSteamworks.py:253-265 | both cases together: the exported header and the call line to the real method, with the forwarding list, on `<iface[1:]>()`, converted exactly for a `CSteamID` return |
| Emitter.Emit | CSteamworks.py:223-265 | a declaration without parameters is always emitted; an emission is four lines, the last two `}` and empty |
| Emitter.EmitWrapper | CSteamworks.py:223-265 | the emission computes the forwarding list from the untranslated text, then the translated parameters, then the four lines |
| Emitter.EmitDeclaration | CSteamworks.py:223-265 | a well-formed declaration is emitted with its names as forwarded arguments and its typed parameters, table applied, as exported parameters |
| Generator.CodeOf | CSteamworks.py:96-122 | the code kept from a line is never empty and has no whitespace at either end |
| Generator.OpenCut | CSteamworks.py:100-111 | a line holding `/*` leaves a comment open exactly when it holds no `*/` as well; without `/*` the line and the comment state pass unchanged; code is kept before an unclosed comment only while one is open |
| Generator.CloseCut | CSteamworks.py:113-122 | `*/` closes the comment; otherwise the comment state stays, and outside a comment the line is kept whole; kept code is non-empty and trimmed |
| Generator.CodeInUncommented | CSteamworks.py:96-122 | whatever the kept code of a line contains is in the line cut at its first `//` and stripped |
| Generator.CodeWithin | CSteamworks.py:96-122 | whatever is found in the code kept from a line was in the line |
| Generator.CodeShape | CSteamworks.py:96-122 | the code kept from a line is never empty, has no whitespace at either end and holds no `//` |
| Generator.UncommentedFree | CSteamworks.py:96 | a line cut at its first `//` and stripped holds no `//` |
| Generator.InsideCommentSkipped | CSteamworks.py:121-122 | inside a block comment, a line without `/*` or `*/` is skipped and the comment stays open |
| Generator.CloseCommentKeepsAfter | CSteamworks.py:113-122 | inside a block comment, a line closing it without opening another keeps the stripped text after the first `*/` (skipped when empty) and closes the comment |
| Generator.OpenCommentKeepsBefore | CSteamworks.py:100-122 | a line opening a block comment without closing it keeps the stripped code before the mark, is skipped when there is none, and leaves the comment open |
| Generator.BothMarksKeepAfter | CSteamworks.py:100-119 | a line holding both block-comment marks keeps only the stripped text after the first `*/` (skipped when empty) and leaves no comment open |
| Generator.PlainLineKept | CSteamworks.py:96-122 | a line without comment marks is kept, stripped, and no comment opens |
| Generator.Braces | CSteamworks.py:267-272 | depth moves by one for `{` and one for `}`; the interface closes exactly when a `}` brings depth back to where it opened; nothing else changes |
| Generator.InterfaceName | CSteamworks.py:131-136 | the interface is the override when one is given, otherwise the whole whitespace-free word after `class `, which starts with `ISteam` |
| Generator.ClassNameFollows | CSteamworks.py:131 | the text after `class ` begins with `ISteam` |
| Generator.Directive | CSteamworks.py:140-146 | a directive line has no output (the index error) exactly when it is an `#ifdef` or `#ifndef` line with fewer than two words |
| Generator.IfdefRewritten | CSteamworks.py:141-142 | `#ifdef X` becomes `#if defined(X)` |
| Generator.IfndefRewritten | CSteamworks.py:143-144 | `#ifndef X` becomes `#if !defined(X)` |
| Generator.OtherDirectiveCopied | CSteamworks.py:145-146 | other directives are copied unchanged |
| Generator.Completed | CSteamworks.py:220-272 | after a declaration line's token loop the registry is the loop's; output is only appended; depth moves by at most one; a declaration still open writes nothing |
| Generator.DeclarationLine | CSteamworks.py:147-272 | a declaration line only adds names, only appends output, and moves depth by at most one |
| Generator.CodeStep | CSteamworks.py:124-272 | the code of a line only adds names, only appends output, and moves depth by at most one |
| Generator.LineStep | CSteamworks.py:94-272 | a processed line only adds names, only appends output, and moves depth by at most one |
| Generator.RunAppends | CSteamworks.py:92-272 | a whole header only appends to the output and to the registry |
| Generator.Generate | CSteamworks.py:80-275 | a header's pass only adds names to the registry, whether or not it ends in an index error |
| Generator.CommentedLineIgnored | CSteamworks.py:121-122 | inside a block comment, a line without `/*` or `*/` changes nothing |
| Generator.OutsideInterfaceSilent | CSteamworks.py:139 | outside an interface, a line that opens none emits nothing, registers nothing and leaves the declaration state alone |
| Generator.ForwardDeclarationIgnored | CSteamworks.py:124-129 | a `class ISteam` line with `;` or `Response` is skipped, braces and all |
| Generator.InterfaceOpened | CSteamworks.py:124-137 | a `class ISteam` line without `;` or `Response` opens the interface at the current depth, named by the override or the `ISteam...` word |
| Generator.OpenDeclarationHoldsDepth | CSteamworks.py:220-221 | a line that opens a declaration and leaves it open emits nothing and skips the brace bookkeeping |
| Generator.ContinuationHoldsDepth | CSteamworks.py:147-221 | a non-directive line that continues an open declaration and leaves it open emits nothing and skips the brace bookkeeping |
| Generator.DestructorLineSilent | CSteamworks.py:147-149 | a `~` line inside an interface emits nothing and registers nothing; as a declaration line it is skipped outright |
| Generator.DeclarationLineEmits | CSteamworks.py:147-265 | a complete declaration on one line registers its exported name and appends exactly its four wrapper lines |
| Generator.DeclarationEmits | CSteamworks.py:147-265 | the same for any line whose words are the declaration's tokens |
| Generator.DeclarationAcrossLines | CSteamworks.py:92-272 | a declaration written over any number of lines, its name on the first, writes nothing until its last line, which registers its exported name and appends the same four lines as the one-line declaration |
| Generator.BareVirtualLineEmits | CSteamworks.py:147-265 | a `virtual` line whose tokens never reach `(` is emitted as a wrapper with an empty name and no parameters, and registers nothing |
| Generator.WrapperGenerator.constructor | CSteamworks.py:70 | the registry starts empty |
| Generator.WrapperGenerator.ProcessDocument | CSteamworks.py:80-275 | one header's pass: the output the line loop defines, or `None` on an index error, with the registry updated either way |
| Generator.WrapperGenerator.ProcessLine | CSteamworks.py:94-272 | one line's comment stripping, interface tracking, directive copying, declaration handling and brace bookkeeping |
| Generator.WrapperGenerator.ProcessDeclaration | CSteamworks.py:147-265 | a declaration line: the token loop, then emission when the declaration is complete |
| Generator.WrapperGenerator.ScanTokens | CSteamworks.py:157-218 | the token loop updates the registry in place as the token machine defines |

## Left out

- File handling is not modelled: the directory listing and its exclusions
  (`CSteamworks.py:16-44`), the `wrapper/` directory, reading headers, and
  writing `.cpp` files with the `CPP_HEADER` banner
  (`CSteamworks.py:12-14`, `65-68`, `80`, `277-282`). A header is given to
  `ProcessDocument` as its lines; the result is its output lines.
- The unity-build file (`CSteamworks.py:284-288`) is output only and is not
  modelled.
- The file-alias table (`CSteamworks.py:46-51`, `74-77`) only chooses which
  file is read, so it is not modelled. The interface-name table
  (`CSteamworks.py:53-58`, `133-136`) is the `ifaceOverride` parameter.
- The `print` diagnostics (`CSteamworks.py:79`, `137`, `186`, `203`) are not
  modelled; the control flow around them is.
- `bDisableCode` (`CSteamworks.py:86`, `273-275`) is not modelled. Nothing
  sets it, so its `#endif` branch cannot run.
- The `if not token: continue` at `CSteamworks.py:159` is not modelled,
  because `split()` never yields an empty token.
- ArgumentCanonicalizer.ForwardingParams: covers parameters whose default
  value is a single token and whose tokens are plain words. A parameter
  with a standalone `*` gives an empty piece and the index error, which
  `Canonicalize` models but no lemma states in general.
- Emitter.TranslatedQualifiesLast: covers only the last key of the table.
  For the first key, `ReplaceIntroduces` shows that its own replacement
  qualifies it. No lemma shows that the second replacement keeps that text.
- Generator.InterfaceOpened: stated for a class line with no brace, no `#`,
  no `virtual` and no declaration open. Those are the lines the interface
  headers hold; the other cases go on through the directive and
  declaration handling, which the other lemmas cover.
- Generator.DeclarationAcrossLines: stated for declarations whose method-name
  token is on the first line, whose lines hold only the declaration's tokens
  joined by single spaces, and which carry no comment marks, braces, `~` or
  `#`. A line that continues a declaration is covered in general by
  `ContinuationHoldsDepth` and `ScanAcrossLines`.
- Generator.WrapperGenerator.ProcessDocument: models one header; the loop over
  headers is the caller calling it once per file on the same
  `WrapperGenerator`.
