/** The token-level state machine that assembles one virtual method
    declaration (return type, method name, argument text) from the
    whitespace-separated tokens of one or more physical lines. */
module SignatureParser {
  import opened TextOps
  import opened Registry

  /** The five parser states, in the order of the source's integer codes
      0 to 4. */
  datatype Phase = ReturnType | MethodName | Args | AwaitTerminator | SkipAnnotation

  /** The parser state together with the text gathered so far. */
  datatype Signature = Signature(
    phase: Phase,
    returnValue: string,
    methodName: string,
    realMethodName: string,
    args: string)

  /** The state a new declaration starts from. */
  const Fresh: Signature := Signature(ReturnType, "", "", "", "")

  /** Argument tokens starting with one of these are annotation macros, never
      forwarded. */
  const AnnotationPrefixes: seq<string> := [
    "ARRAY_COUNT_D", "ARRAY_COUNT", "OUT_STRUCT", "OUT_ARRAY_CALL",
    "OUT_ARRAY_COUNT", "BUFFER_COUNT", "OUT_BUFFER_COUNT", "DESC",
    "OUT_STRING_COUNT"]

  predicate IsAnnotation(token: string)
  {
    HasPrefixIn(token, AnnotationPrefixes)
  }

  predicate HasPrefixIn(token: string, prefixes: seq<string>)
  {
    prefixes != [] && (StartsWith(token, prefixes[0]) || HasPrefixIn(token, prefixes[1..]))
  }

  /** A token matches the prefix list exactly when it starts with one of the
      prefixes. */
  lemma {:induction false} PrefixInitial(token: string, prefixes: seq<string>)
    ensures HasPrefixIn(token, prefixes) <==> exists i :: 0 <= i < |prefixes| && StartsWith(token, prefixes[i])
    decreases |prefixes|
  {
    if prefixes != [] {
      PrefixInitial(token, prefixes[1..]);
      if HasPrefixIn(token, prefixes) && !StartsWith(token, prefixes[0]) {
        var i :| 0 <= i < |prefixes[1..]| && StartsWith(token, prefixes[1..][i]);
        assert prefixes[1..][i] == prefixes[i + 1];
      }
      if exists i :: 0 <= i < |prefixes| && StartsWith(token, prefixes[i]) {
        var i :| 0 <= i < |prefixes| && StartsWith(token, prefixes[i]);
        if i > 0 {
          assert prefixes[1..][i - 1] == prefixes[i];
        }
      }
    }
  }

  /** Every annotation prefix begins with one of four capitals. */
  lemma AnnotationInitial(token: string)
    requires IsAnnotation(token)
    ensures |token| > 0 && token[0] in {'A', 'B', 'D', 'O'}
  {
    PrefixInitial(token, AnnotationPrefixes);
    var i :| 0 <= i < |AnnotationPrefixes| && StartsWith(token, AnnotationPrefixes[i]);
    assert token[0] == AnnotationPrefixes[i][0];
  }

  /** What one token does: go on with the next token, stop scanning the line
      (the declaration is complete), or fail with an index error. Each case
      carries the name registry as it is afterwards. */
  datatype TokenOutcome =
    | Next(sig: Signature, names: seq<string>)
    | Stop(sig: Signature, names: seq<string>)
    | Fault(names: seq<string>)

  /** State 3: wait for the token that ends the statement. */
  function TerminatorBlock(sig: Signature, token: string, names: seq<string>): (r: TokenOutcome)
    ensures !r.Fault? && r.names == names
    ensures r.Stop? <==> EndsWith(token, ";")
    ensures r.Stop? ==> r.sig == sig.(phase := ReturnType)
    ensures r.Next? ==> r.sig == sig
  {
    if EndsWith(token, ";") then Stop(sig.(phase := ReturnType), names) else Next(sig, names)
  }

  /** State 4: discard an annotation's tokens up to the one closing it. */
  function SkipBlock(sig: Signature, token: string, names: seq<string>): (r: TokenOutcome)
    ensures r.Next? && r.names == names
    ensures r.sig == if EndsWith(token, ")") then sig.(phase := Args) else sig
  {
    if EndsWith(token, ")") then Next(sig.(phase := Args), names) else Next(sig, names)
  }

  /** State 2: gather argument tokens until the parameter list closes. */
  function ArgsBlock(sig: Signature, token: string, names: seq<string>): (r: TokenOutcome)
    requires sig.phase == Args
    ensures !r.Fault? && r.names == names
    ensures r.Stop? ==> r.sig.phase == ReturnType && EndsWith(token, ";")
    ensures r.Next? ==> r.sig.phase in {Args, AwaitTerminator, SkipAnnotation}
  {
    if IsAnnotation(token) then
      Next(if EndsWith(token, ")") then sig else sig.(phase := SkipAnnotation), names)
    else if StartsWith(token, ")") then
      TerminatorBlock(sig.(phase := AwaitTerminator), token, names)
    else if EndsWith(token, ")") then
      TerminatorBlock(sig.(args := sig.args + token[..|token| - 1], phase := AwaitTerminator), token, names)
    else
      Next(sig.(args := sig.args + token + " "), names)
  }

  /** State 1: take the method name from the token holding `(`, register the
      exported name, and decide whether arguments follow. */
  function MethodNameBlock(sig: Signature, token: string, iface: string, names: seq<string>): (r: TokenOutcome)
    ensures |r.names| == |names| + 1 && r.names[..|names|] == names
    ensures StartsWith(r.names[|names|], iface + "_")
    ensures r.Stop? ==> r.sig.phase == ReturnType
    ensures r.Next? ==> r.sig.phase in {Args, AwaitTerminator, SkipAnnotation}
  {
    var t := if StartsWith(token, "*") then token[1..] else token;
    var parts := SplitChar(t, '(');
    var realName := parts[0];
    var name := AssignedName(names, iface + "_" + realName);
    ExportedNamePrefix(names, iface, realName);
    var names' := names + [name];
    assert names'[..|names|] == names;
    var sig' := sig.(realMethodName := realName, methodName := name);
    if |t| == 0 then Fault(names')
    else if t[|t| - 1] == ')' then TerminatorBlock(sig'.(phase := AwaitTerminator), t, names')
    else if t[|t| - 1] != '(' then
      if |parts| < 2 then Fault(names') else ArgsBlock(sig'.(phase := Args), parts[1], names')
    else Next(sig'.(phase := Args), names')
  }

  /** Every exported name starts with its interface's name and `_`. */
  lemma ExportedNamePrefix(names: seq<string>, iface: string, realName: string)
    ensures StartsWith(AssignedName(names, iface + "_" + realName), iface + "_")
  {
    var base := iface + "_" + realName;
    var name := AssignedName(names, base);
    assert base[..|iface| + 1] == iface + "_";
    assert name[..|iface| + 1] == iface + "_";
  }

  /** State 0: gather return-type tokens until the method name. */
  function ReturnTypeBlock(sig: Signature, token: string, iface: string, names: seq<string>): (r: TokenOutcome)
    requires sig.phase == ReturnType
    ensures names <= r.names && |r.names| <= |names| + 1
    ensures |r.names| > |names| ==> StartsWith(r.names[|names|], iface + "_")
    ensures r.Stop? ==> r.sig.phase == ReturnType
    ensures r.Next? ==> r.sig.phase != MethodName
    ensures r.Next? && r.sig.phase == ReturnType ==> r.names == names && r.sig.methodName == sig.methodName
  {
    if StartsWith(token, "*") then
      MethodNameBlock(sig.(returnValue := sig.returnValue + "*", phase := MethodName), token, iface, names)
    else if '(' !in token then
      Next(sig.(returnValue := sig.returnValue + token + " "), names)
    else
      MethodNameBlock(sig.(phase := MethodName), token, iface, names)
  }

  /** One token through the machine. The source's state blocks run one after
      another, so a token that moves the machine on is handled again by the
      block of the new state. */
  function TokenStep(sig: Signature, token: string, iface: string, names: seq<string>): (r: TokenOutcome)
    ensures names <= r.names && |r.names| <= |names| + 1
    ensures |r.names| > |names| ==> StartsWith(r.names[|names|], iface + "_")
    ensures r.Stop? ==> r.sig.phase == ReturnType
    ensures r.Next? && sig.phase != MethodName ==> r.sig.phase != MethodName
    ensures r.Next? && sig.phase == ReturnType && r.sig.phase == ReturnType ==>
              r.names == names && r.sig.methodName == sig.methodName
  {
    if token == "virtual" then Next(sig, names)
    else
      match sig.phase
      case ReturnType => ReturnTypeBlock(sig, token, iface, names)
      case MethodName => MethodNameBlock(sig, token, iface, names)
      case Args => ArgsBlock(sig, token, names)
      case AwaitTerminator => TerminatorBlock(sig, token, names)
      case SkipAnnotation => SkipBlock(sig, token, names)
  }

  /** Scanning the tokens of one line: either the line runs out, or a
      declaration completes (the rest of the line is ignored), or an index
      error aborts. */
  datatype ScanResult =
    | Scanned(sig: Signature, names: seq<string>)
    | ScanFault(names: seq<string>)

  function Scan(tokens: seq<string>, sig: Signature, iface: string, names: seq<string>): (r: ScanResult)
    ensures names <= r.names
    ensures r.Scanned? && sig.phase != MethodName ==> r.sig.phase != MethodName
    decreases |tokens|
  {
    if tokens == [] then Scanned(sig, names)
    else
      match TokenStep(sig, tokens[0], iface, names)
      case Next(s, n) => Scan(tokens[1..], s, iface, n)
      case Stop(s, n) => Scanned(s, n)
      case Fault(n) => ScanFault(n)
  }

  /** A signature left open at the end of one line goes on with the next
      line's tokens exactly as if both lines were one. */
  lemma {:induction false} ScanAcrossLines(t1: seq<string>, t2: seq<string>, sig: Signature, iface: string, names: seq<string>)
    requires Scan(t1, sig, iface, names).Scanned?
    requires Scan(t1, sig, iface, names).sig.phase != ReturnType
    ensures var mid := Scan(t1, sig, iface, names);
            Scan(t1 + t2, sig, iface, names) == Scan(t2, mid.sig, iface, mid.names)
    decreases |t1|
  {
    if t1 != [] {
      assert (t1 + t2)[0] == t1[0];
      assert (t1 + t2)[1..] == t1[1..] + t2;
      match TokenStep(sig, t1[0], iface, names)
      case Next(s, n) => ScanAcrossLines(t1[1..], t2, s, iface, n);
      case Stop(s, n) =>
      case Fault(n) =>
    } else {
      assert t1 + t2 == t2;
    }
  }

  /** `" ".join` with a space after every token, as `x += token + ' '` builds
      it. */
  function Spaced(ts: seq<string>): (r: string)
    ensures |r| >= |ts|
  {
    if ts == [] then "" else ts[0] + " " + Spaced(ts[1..])
  }

  lemma SpacedCons(x: string, ts: seq<string>)
    requires ts != []
    ensures x + ts[0] + " " + Spaced(ts[1..]) == x + Spaced(ts)
  {
  }

  lemma {:induction false} SpacedJoin(ts: seq<string>)
    requires forall i :: 0 <= i < |ts| ==> IsWord(ts[i])
    ensures RStrip(Spaced(ts)) == JoinSpace(ts)
    ensures ts != [] ==> Spaced(ts) == JoinSpace(ts) + " "
    decreases |ts|
  {
    if |ts| == 1 {
      assert Spaced(ts) == ts[0] + " " + "";
      assert JoinSpace(ts) == ts[0];
      RStripSpace(ts[0]);
    } else if |ts| > 1 {
      var tail := ts[1..];
      forall i | 0 <= i < |tail|
        ensures IsWord(tail[i])
      {
        assert tail[i] == ts[i + 1];
      }
      SpacedJoin(tail);
      assert Spaced(ts) == ts[0] + " " + (JoinSpace(tail) + " ");
      assert JoinSpace(ts) == ts[0] + " " + JoinSpace(tail);
      ConcatAssoc(ts[0] + " ", JoinSpace(tail), " ");
      JoinSpaceLast(ts);
      RStripSpace(JoinSpace(ts));
    }
  }

  /** A token that the return-type state simply appends. */
  predicate PlainTypeToken(t: string)
  {
    t != "virtual" && !StartsWith(t, "*") && '(' !in t
  }

  /** A token that the argument state simply appends. */
  predicate PlainArgToken(t: string)
  {
    t != "virtual" && !IsAnnotation(t) && !StartsWith(t, ")") && !EndsWith(t, ")")
  }

  lemma ReturnTokenStep(sig: Signature, t: string, iface: string, names: seq<string>)
    requires sig.phase == ReturnType && PlainTypeToken(t)
    ensures TokenStep(sig, t, iface, names) == Next(sig.(returnValue := sig.returnValue + t + " "), names)
  {
  }

  lemma ReturnTokenHead(ts: seq<string>, rest: seq<string>, sig: Signature, iface: string, names: seq<string>)
    requires sig.phase == ReturnType && ts != [] && PlainTypeToken(ts[0])
    ensures Scan(ts + rest, sig, iface, names)
         == Scan(ts[1..] + rest, sig.(returnValue := sig.returnValue + ts[0] + " "), iface, names)
  {
    assert (ts + rest)[0] == ts[0];
    assert (ts + rest)[1..] == ts[1..] + rest;
    ReturnTokenStep(sig, ts[0], iface, names);
    ScanStep(ts + rest, sig, iface, names);
  }

  lemma ScanStep(ts: seq<string>, sig: Signature, iface: string, names: seq<string>)
    requires ts != [] && TokenStep(sig, ts[0], iface, names).Next?
    ensures var o := TokenStep(sig, ts[0], iface, names);
            Scan(ts, sig, iface, names) == Scan(ts[1..], o.sig, iface, o.names)
  {
  }

  /** Return-type tokens are appended in order, each followed by a space. */
  lemma {:induction false} ScanReturnTokens(ts: seq<string>, rest: seq<string>, sig: Signature, iface: string, names: seq<string>)
    requires sig.phase == ReturnType
    requires forall i :: 0 <= i < |ts| ==> PlainTypeToken(ts[i])
    ensures Scan(ts + rest, sig, iface, names)
         == Scan(rest, sig.(returnValue := sig.returnValue + Spaced(ts)), iface, names)
    decreases |ts|
  {
    if ts == [] {
      assert ts + rest == rest;
      assert sig.(returnValue := sig.returnValue + "") == sig;
    } else {
      var s := sig.(returnValue := sig.returnValue + ts[0] + " ");
      ReturnTokenHead(ts, rest, sig, iface, names);
      ScanReturnTokens(ts[1..], rest, s, iface, names);
      SpacedCons(sig.returnValue, ts);
      assert s.(returnValue := s.returnValue + Spaced(ts[1..])) == sig.(returnValue := sig.returnValue + Spaced(ts));
    }
  }

  lemma ArgTokenHead(ts: seq<string>, rest: seq<string>, sig: Signature, iface: string, names: seq<string>)
    requires sig.phase == Args && ts != [] && PlainArgToken(ts[0])
    ensures Scan(ts + rest, sig, iface, names)
         == Scan(ts[1..] + rest, sig.(args := sig.args + ts[0] + " "), iface, names)
  {
    assert (ts + rest)[0] == ts[0];
    assert (ts + rest)[1..] == ts[1..] + rest;
    assert TokenStep(sig, ts[0], iface, names) == Next(sig.(args := sig.args + ts[0] + " "), names);
    ScanStep(ts + rest, sig, iface, names);
  }

  /** Argument tokens are appended verbatim in order, each followed by a
      space. */
  lemma {:induction false} ScanArgTokens(ts: seq<string>, rest: seq<string>, sig: Signature, iface: string, names: seq<string>)
    requires sig.phase == Args
    requires forall i :: 0 <= i < |ts| ==> PlainArgToken(ts[i])
    ensures Scan(ts + rest, sig, iface, names)
         == Scan(rest, sig.(args := sig.args + Spaced(ts)), iface, names)
    decreases |ts|
  {
    if ts == [] {
      assert ts + rest == rest;
      assert sig.(args := sig.args + "") == sig;
    } else {
      var s := sig.(args := sig.args + ts[0] + " ");
      ArgTokenHead(ts, rest, sig, iface, names);
      ScanArgTokens(ts[1..], rest, s, iface, names);
      SpacedCons(sig.args, ts);
      assert s.(args := s.args + Spaced(ts[1..])) == sig.(args := sig.args + Spaced(ts));
    }
  }

  /** In the skip state every token up to the first one ending in `)` is
      discarded; that one returns the machine to the argument state. */
  lemma {:induction false} ScanSkipped(skipped: seq<string>, closer: string, rest: seq<string>, sig: Signature, iface: string, names: seq<string>)
    requires sig.phase == SkipAnnotation
    requires forall i :: 0 <= i < |skipped| ==> !EndsWith(skipped[i], ")")
    requires EndsWith(closer, ")")
    ensures Scan(skipped + [closer] + rest, sig, iface, names)
         == Scan(rest, sig.(phase := Args), iface, names)
    decreases |skipped|
  {
    var all := skipped + [closer] + rest;
    assert all[0] == if skipped == [] then closer else skipped[0];
    if skipped == [] {
      assert all[1..] == rest;
    } else {
      assert all[1..] == skipped[1..] + [closer] + rest;
      ScanSkipped(skipped[1..], closer, rest, sig, iface, names);
    }
  }

  /** An annotation macro never reaches the argument text: one that closes
      its own parentheses is dropped alone, any other is dropped with every
      token up to and including the one ending in `)`. */
  lemma AnnotationDropped(a: string, skipped: seq<string>, closer: string, rest: seq<string>, sig: Signature, iface: string, names: seq<string>)
    requires sig.phase == Args && IsAnnotation(a)
    requires forall i :: 0 <= i < |skipped| ==> !EndsWith(skipped[i], ")")
    requires EndsWith(closer, ")")
    ensures EndsWith(a, ")") ==> Scan([a] + rest, sig, iface, names) == Scan(rest, sig, iface, names)
    ensures !EndsWith(a, ")") ==>
              Scan([a] + skipped + [closer] + rest, sig, iface, names) == Scan(rest, sig, iface, names)
  {
    AnnotationInitial(a);
    TailOfCons(a, rest);
    if !EndsWith(a, ")") {
      var mid := skipped + [closer] + rest;
      ConcatAssoc([a], skipped, [closer]);
      ConcatAssoc([a], skipped + [closer], rest);
      TailOfCons(a, mid);
      ScanSkipped(skipped, closer, rest, sig.(phase := SkipAnnotation), iface, names);
      assert sig.(phase := SkipAnnotation).(phase := Args) == sig;
    }
  }

  /** A single-line pure virtual declaration, as its tokens: `virtual`, the
      return-type tokens, the method name (after a `*` when the return type is
      starred) with its `(`, the argument tokens and `)`, then `= 0;`.
      Without arguments the name is written `Name()`. */
  datatype Declaration = Declaration(
    returnTokens: seq<string>,
    starred: bool,
    name: string,
    argTokens: seq<string>)

  function DeclarationTokens(d: Declaration): seq<string>
  {
    var star := if d.starred then "*" else "";
    ["virtual"] + d.returnTokens
    + (if d.argTokens == [] then [star + d.name + "()"] else [star + d.name + "("] + d.argTokens + [")"])
    + ["=", "0;"]
  }

  predicate WellFormed(d: Declaration)
  {
    && (forall i :: 0 <= i < |d.returnTokens| ==> PlainTypeToken(d.returnTokens[i]))
    && (forall i :: 0 <= i < |d.argTokens| ==> PlainArgToken(d.argTokens[i]))
    && '(' !in d.name && !StartsWith(d.name, "*")
  }

  lemma NameTokenShape(star: string, name: string, tail: string)
    requires star == "" || star == "*"
    requires tail == "(" || tail == "()"
    requires !StartsWith(name, "*")
    ensures var tok := star + name + tail;
            && tok != "virtual" && '(' in tok
            && (StartsWith(tok, "*") <==> star == "*")
            && (if StartsWith(tok, "*") then tok[1..] else tok) == name + tail
  {
    var tok := star + name + tail;
    var nt := name + tail;
    ConcatAssoc(star, name, tail);
    assert tok[|star| + |name|] == '(';
    assert tok[|tok| - 1] != 'l';
    if star == "" {
      assert star + nt == nt;
      if |name| == 0 { assert nt[0] == '('; } else { assert nt[..1] == name[..1]; }
    } else {
      assert (star + nt)[1..] == nt;
      assert (star + nt)[..1] == "*";
    }
  }

  lemma NameSplit(name: string, tail: string)
    requires tail == "(" || tail == "()"
    requires '(' !in name
    ensures |name + tail| > 0 && (name + tail)[|name + tail| - 1] == tail[|tail| - 1]
    ensures SplitChar(name + tail, '(')[0] == name
  {
    IndexOfAfter(name, '(', tail[1..]);
    assert name + tail == name + ['('] + tail[1..];
  }

  /** The token holding the method name: the `*` marker goes to the
      return type, the name is recorded and registered, and the machine waits
      for arguments (after `Name(`) or for the terminator (after `Name()`). */
  lemma MethodNameToken(sig: Signature, star: string, name: string, tail: string, iface: string, names: seq<string>)
    requires sig.phase == ReturnType
    requires star == "" || star == "*"
    requires tail == "(" || tail == "()"
    requires '(' !in name && !StartsWith(name, "*")
    ensures var exported := AssignedName(names, iface + "_" + name);
            var s := sig.(returnValue := sig.returnValue + star, realMethodName := name, methodName := exported);
            TokenStep(sig, star + name + tail, iface, names)
            == Next(s.(phase := if tail == "()" then AwaitTerminator else Args), names + [exported])
  {
    NameTokenShape(star, name, tail);
    var tok := star + name + tail;
    var sigM := sig.(returnValue := sig.returnValue + star, phase := MethodName);
    assert sig.returnValue + "" == sig.returnValue;
    assert TokenStep(sig, tok, iface, names) == MethodNameBlock(sigM, tok, iface, names);
    NameBlockOn(sigM, star, name, tail, iface, names);
  }

  lemma NameBlockOn(sig: Signature, star: string, name: string, tail: string, iface: string, names: seq<string>)
    requires star == "" || star == "*"
    requires tail == "(" || tail == "()"
    requires '(' !in name && !StartsWith(name, "*")
    ensures var exported := AssignedName(names, iface + "_" + name);
            var s := sig.(realMethodName := name, methodName := exported);
            MethodNameBlock(sig, star + name + tail, iface, names)
            == Next(s.(phase := if tail == "()" then AwaitTerminator else Args), names + [exported])
  {
    NameTokenShape(star, name, tail);
    NameSplit(name, tail);
    if tail == "()" {
      assert !EndsWith(name + tail, ";");
    }
  }

  lemma VirtualSkipped(ts: seq<string>, sig: Signature, iface: string, names: seq<string>)
    ensures Scan(["virtual"] + ts, sig, iface, names) == Scan(ts, sig, iface, names)
  {
    assert (["virtual"] + ts)[1..] == ts;
  }

  /** `= 0;` after the closed parameter list completes the declaration. */
  lemma TerminatorTail(sig: Signature, iface: string, names: seq<string>)
    requires sig.phase == AwaitTerminator
    ensures Scan(["=", "0;"], sig, iface, names) == Scanned(sig.(phase := ReturnType), names)
  {
    var tail: seq<string> := ["=", "0;"];
    assert tail[1..] == ["0;"];
    assert TokenStep(sig, "=", iface, names) == Next(sig, names);
    assert TokenStep(sig, "0;", iface, names) == Stop(sig.(phase := ReturnType), names);
  }

  /** In state 3 every token is passed over until the first one ending in
      `;`, which completes the declaration; the rest of the line is not
      looked at. */
  lemma {:induction false} ScanAwait(waiting: seq<string>, closer: string, rest: seq<string>,
                                     sig: Signature, iface: string, names: seq<string>)
    requires sig.phase == AwaitTerminator
    requires forall i :: 0 <= i < |waiting| ==> !EndsWith(waiting[i], ";")
    requires EndsWith(closer, ";")
    ensures Scan(waiting + [closer] + rest, sig, iface, names) == Scanned(sig.(phase := ReturnType), names)
    decreases |waiting|
  {
    var all := waiting + [closer] + rest;
    assert all[0] == if waiting == [] then closer else waiting[0];
    if waiting != [] {
      assert all[1..] == waiting[1..] + [closer] + rest;
      ScanAwait(waiting[1..], closer, rest, sig, iface, names);
    }
  }

  /** A plain argument token is added to the argument text, followed by a
      space. */
  lemma ArgTokenStep(sig: Signature, t: string, iface: string, names: seq<string>)
    requires sig.phase == Args && PlainArgToken(t)
    ensures TokenStep(sig, t, iface, names) == Next(sig.(args := sig.args + t + " "), names)
  {
  }

  /** A token with the closing `)` attached, as in `int x)`, adds all but
      that `)` to the argument text and moves on to waiting for `;`. */
  lemma ArgCloseAttached(sig: Signature, t: string, iface: string, names: seq<string>)
    requires sig.phase == Args && !IsAnnotation(t) && !StartsWith(t, ")") && EndsWith(t, ")")
    ensures TokenStep(sig, t, iface, names)
            == Next(sig.(args := sig.args + t[..|t| - 1], phase := AwaitTerminator), names)
  {
    assert t[|t| - 1] == ')';
  }

  /** A token starting with `)` closes the parameter list without adding to
      the argument text; when it also ends in `;` it completes the declaration
      at once. */
  lemma ArgCloseLeading(sig: Signature, t: string, iface: string, names: seq<string>)
    requires sig.phase == Args && StartsWith(t, ")")
    ensures TokenStep(sig, t, iface, names)
            == if EndsWith(t, ";") then Stop(sig.(phase := ReturnType), names)
               else Next(sig.(phase := AwaitTerminator), names)
  {
    assert t[0] == ')';
    if IsAnnotation(t) {
      AnnotationInitial(t);
    }
  }

  /** `) = 0;` in the argument state completes the declaration. */
  lemma CloseTail(sig: Signature, iface: string, names: seq<string>)
    requires sig.phase == Args
    ensures Scan([")", "=", "0;"], sig, iface, names) == Scanned(sig.(phase := ReturnType), names)
  {
    var tail: seq<string> := [")", "=", "0;"];
    assert tail[1..] == ["=", "0;"];
    if IsAnnotation(")") {
      AnnotationInitial(")");
    }
    assert TokenStep(sig, ")", iface, names) == Next(sig.(phase := AwaitTerminator), names);
    TerminatorTail(sig.(phase := AwaitTerminator), iface, names);
  }

  /** A well-formed single-line declaration completes on its last token with
      the return type, the `*` marker, the method name and the argument
      tokens recorded exactly, and registers exactly one exported name,
      `<iface>_<name>` or that name with one `_` appended. */
  lemma ScanDeclaration(d: Declaration, iface: string, names: seq<string>)
    requires WellFormed(d)
    ensures var name := AssignedName(names, iface + "_" + d.name);
            Scan(DeclarationTokens(d), Fresh, iface, names)
            == Scanned(Signature(ReturnType,
                                 Spaced(d.returnTokens) + (if d.starred then "*" else ""),
                                 name, d.name, Spaced(d.argTokens)),
                       names + [name])
  {
    var star := if d.starred then "*" else "";
    var tail := if d.argTokens == [] then "()" else "(";
    var tok := star + d.name + tail;
    var after := if d.argTokens == [] then ["=", "0;"] else d.argTokens + [")", "=", "0;"];
    DeclarationShape(d);
    VirtualSkipped(d.returnTokens + ([tok] + after), Fresh, iface, names);
    ScanReturnTokens(d.returnTokens, [tok] + after, Fresh, iface, names);
    var s0 := Fresh.(returnValue := Spaced(d.returnTokens));
    assert Fresh.(returnValue := Fresh.returnValue + Spaced(d.returnTokens)) == s0;
    var name := AssignedName(names, iface + "_" + d.name);
    var n1 := names + [name];
    MethodNameToken(s0, star, d.name, tail, iface, names);
    var s1 := s0.(returnValue := s0.returnValue + star, realMethodName := d.name, methodName := name);
    ScanStep([tok] + after, s0, iface, names);
    assert ([tok] + after)[0] == tok && ([tok] + after)[1..] == after;
    var done := Signature(ReturnType, Spaced(d.returnTokens) + star, name, d.name, Spaced(d.argTokens));
    if d.argTokens == [] {
      TerminatorTail(s1.(phase := AwaitTerminator), iface, n1);
      assert s1.(phase := AwaitTerminator).(phase := ReturnType) == done;
    } else {
      var s2 := s1.(phase := Args);
      ScanArgTokens(d.argTokens, [")", "=", "0;"], s2, iface, n1);
      var s3 := s2.(args := s2.args + Spaced(d.argTokens));
      CloseTail(s3, iface, n1);
      assert s3.(phase := ReturnType) == done;
    }
  }

  lemma DeclarationShape(d: Declaration)
    ensures var star := if d.starred then "*" else "";
            var tail := if d.argTokens == [] then "()" else "(";
            var after := if d.argTokens == [] then ["=", "0;"] else d.argTokens + [")", "=", "0;"];
            DeclarationTokens(d) == ["virtual"] + (d.returnTokens + ([star + d.name + tail] + after))
  {
  }

  /** The tokens after the method-name token. */
  function AfterName(d: Declaration): seq<string>
  {
    if d.argTokens == [] then ["=", "0;"] else d.argTokens + [")", "=", "0;"]
  }

  lemma PrefixOfConcat<T>(x: seq<T>, y: seq<T>, j: nat)
    requires j <= |y|
    ensures (x + y)[..|x| + j] == x + y[..j]
  {
  }

  /** Cut anywhere after the method-name token and before the last token, a
      declaration is still open: its exported name is registered and the
      machine waits for more. This is what lets a declaration go on on the
      next line. */
  lemma OpenPrefix(d: Declaration, k: nat, iface: string, names: seq<string>)
    requires WellFormed(d)
    requires |d.returnTokens| + 1 < k < |DeclarationTokens(d)|
    ensures var r := Scan(DeclarationTokens(d)[..k], Fresh, iface, names);
            && r.Scanned? && r.sig.phase != ReturnType
            && r.names == names + [AssignedName(names, iface + "_" + d.name)]
  {
    var star := if d.starred then "*" else "";
    var tail := if d.argTokens == [] then "()" else "(";
    var tok := star + d.name + tail;
    var after := AfterName(d);
    var m := k - |d.returnTokens| - 2;
    DeclarationShape(d);
    assert DeclarationTokens(d) == ["virtual"] + (d.returnTokens + ([tok] + after));
    PrefixOfConcat([tok], after, m);
    PrefixOfConcat(d.returnTokens, [tok] + after, m + 1);
    PrefixOfConcat(["virtual"], d.returnTokens + ([tok] + after), |d.returnTokens| + 1 + m);
    assert DeclarationTokens(d)[..k] == ["virtual"] + (d.returnTokens + ([tok] + after[..m]));
    VirtualSkipped(d.returnTokens + ([tok] + after[..m]), Fresh, iface, names);
    ScanReturnTokens(d.returnTokens, [tok] + after[..m], Fresh, iface, names);
    var s0 := Fresh.(returnValue := Spaced(d.returnTokens));
    assert Fresh.(returnValue := Fresh.returnValue + Spaced(d.returnTokens)) == s0;
    var name := AssignedName(names, iface + "_" + d.name);
    MethodNameToken(s0, star, d.name, tail, iface, names);
    ScanStep([tok] + after[..m], s0, iface, names);
    TailOfCons(tok, after[..m]);
    var s1 := s0.(returnValue := s0.returnValue + star, realMethodName := d.name, methodName := name);
    OpenTail(d, m, s1.(phase := if tail == "()" then AwaitTerminator else Args), iface, names + [name]);
  }

  /** The tokens after the name, short of the last, leave the machine open. */
  lemma OpenTail(d: Declaration, m: nat, s1: Signature, iface: string, names: seq<string>)
    requires WellFormed(d) && m < |AfterName(d)|
    requires s1.phase == if d.argTokens == [] then AwaitTerminator else Args
    ensures var r := Scan(AfterName(d)[..m], s1, iface, names);
            r.Scanned? && r.sig.phase != ReturnType && r.names == names
  {
    var after := AfterName(d);
    var a := d.argTokens;
    if a == [] {
      if m == 1 {
        assert after[..1] == ["="];
        AwaitEquals(s1, iface, names);
      } else {
        assert after[..0] == [];
      }
    } else if m <= |a| {
      assert after[..m] == a[..m];
      OpenArgs(a, m, s1, iface, names);
    } else {
      var rest: seq<string> := if m == |a| + 1 then [] else ["="];
      assert after[..m] == a + ([")"] + rest);
      OpenClosing(a, rest, s1, iface, names);
    }
  }

  lemma AwaitEquals(s: Signature, iface: string, names: seq<string>)
    requires s.phase == AwaitTerminator
    ensures Scan(["="], s, iface, names) == Scanned(s, names)
  {
    var t := "=";
    assert !EndsWith(t, ";");
    ScanOneToken(t, s, iface, names, s, names);
  }

  /** A single token that lets the scan go on leaves it where that step does. */
  lemma ScanOneToken(t: string, s: Signature, iface: string, names: seq<string>, s2: Signature, n2: seq<string>)
    requires TokenStep(s, t, iface, names) == Next(s2, n2)
    ensures Scan([t], s, iface, names) == Scanned(s2, n2)
  {
    var ts := [t];
    assert ts[1..] == [];
  }

  lemma OpenArgs(a: seq<string>, m: nat, s1: Signature, iface: string, names: seq<string>)
    requires s1.phase == Args && m <= |a|
    requires forall i :: 0 <= i < |a| ==> PlainArgToken(a[i])
    ensures var r := Scan(a[..m], s1, iface, names);
            r.Scanned? && r.sig.phase == Args && r.names == names
  {
    var p := a[..m];
    assert p + [] == p;
    assert forall i :: 0 <= i < |p| ==> PlainArgToken(p[i]) by {
      forall i | 0 <= i < |p| ensures PlainArgToken(p[i]) { assert p[i] == a[i]; }
    }
    ScanArgTokens(p, [], s1, iface, names);
  }

  lemma OpenClosing(a: seq<string>, rest: seq<string>, s1: Signature, iface: string, names: seq<string>)
    requires s1.phase == Args
    requires forall i :: 0 <= i < |a| ==> PlainArgToken(a[i])
    requires rest == [] || rest == ["="]
    ensures var r := Scan(a + ([")"] + rest), s1, iface, names);
            r.Scanned? && r.sig.phase == AwaitTerminator && r.names == names
  {
    ScanArgTokens(a, [")"] + rest, s1, iface, names);
    var s3 := s1.(args := s1.args + Spaced(a));
    CloseParen(rest, s3, iface, names);
    if rest != [] {
      AwaitEquals(s3.(phase := AwaitTerminator), iface, names);
    }
  }

  /** A lone `)` closes the parameter list. */
  lemma CloseParen(rest: seq<string>, s: Signature, iface: string, names: seq<string>)
    requires s.phase == Args
    ensures Scan([")"] + rest, s, iface, names) == Scan(rest, s.(phase := AwaitTerminator), iface, names)
  {
    ArgCloseLeading(s, ")", iface, names);
    assert !EndsWith(")", ";");
    assert TokenStep(s, ")", iface, names) == Next(s.(phase := AwaitTerminator), names);
    TailOfCons(")", rest);
    ScanStep([")"] + rest, s, iface, names);
  }
}
