/** The forwarding-argument canonicaliser: from the typed parameter text of
    a declaration, the comma-separated list of parameter names the wrapper
    passes on, with leading `*`s and default values removed. */
module ArgumentCanonicalizer {
  import opened TextOps

  /** The canonicaliser's variables between two pieces: the default-value
      flag and the text gathered so far. */
  datatype Canon = Canon(inDefault: bool, acc: string)

  /** The space-separated pieces of the argument text, each without its
      leading `*`s: the `token` the loop works on. */
  function Pieces(toks: seq<string>): (r: seq<string>)
    ensures |r| == |toks|
    ensures forall j :: 0 <= j < |toks| ==> r[j] == LStripChar(toks[j], '*')
  {
    seq(|toks|, j requires 0 <= j < |toks| => LStripChar(toks[j], '*'))
  }

  /** What the canonicaliser does with one piece, given that piece, the one
      before it, and whether it is the last or the last but one. `None` is
      the index error the source raises on an empty piece outside a default
      value. */
  function PieceStep(piece: string, prev: string, isLast: bool, isPenultimate: bool,
                     inDefault: bool, acc: string): (r: Option<Canon>)
    ensures r.None? <==> !inDefault && !IsEquals(piece) && piece == ""
    ensures r.Some? ==> acc <= r.value.acc
    ensures r.Some? && !inDefault && !IsEquals(piece) ==> !r.value.inDefault
  {
    var token := if IsEquals(piece) then prev else piece;
    if inDefault || IsEquals(piece) then
      if EndsComma(token) || isLast then Some(Canon(false, acc))
      else Some(Canon(true, acc + token + (if !isPenultimate then ", " else "")))
    else if |token| == 0 then None
    else if token[|token| - 1] == ',' then Some(Canon(false, acc + token + " "))
    else if isLast then Some(Canon(false, acc + token))
    else Some(Canon(false, acc))
  }

  /** `s == "="` */
  predicate IsEquals(s: string)
  {
    |s| == 1 && s[0] == '='
  }

  /** `s.endswith(",")` */
  predicate EndsComma(s: string)
  {
    |s| > 0 && s[|s| - 1] == ','
  }

  lemma SpelledChecks(s: string)
    ensures IsEquals(s) <==> s == "="
    ensures EndsComma(s) <==> EndsWith(s, ",")
  {
    if EndsWith(s, ",") {
      assert s[|s| - 1..][0] == ',';
    }
    if EndsComma(s) {
      assert s[|s| - 1..] == [s[|s| - 1]];
    }
  }

  /** The piece before piece `i`; before the first piece comes the last one,
      as Python's index -1 gives. */
  function Prev(xs: seq<string>, i: nat): string
    requires i < |xs|
  {
    xs[if i == 0 then |xs| - 1 else i - 1]
  }

  /** The canonicaliser's loop over the pieces `xs` from piece `i` on. */
  function CanonFrom(xs: seq<string>, i: nat, inDefault: bool, acc: string): (r: Option<string>)
    requires i <= |xs|
    ensures r.Some? ==> acc <= r.value
    decreases |xs| - i
  {
    if i == |xs| then Some(acc)
    else
      match PieceStep(xs[i], Prev(xs, i), i == |xs| - 1, i == |xs| - 2, inDefault, acc)
      case None => None
      case Some(c) => CanonFrom(xs, i + 1, c.inDefault, c.acc)
  }

  lemma CanonNext(xs: seq<string>, i: nat, inDefault: bool, acc: string, c: Canon)
    requires i < |xs|
    requires PieceStep(xs[i], Prev(xs, i), i == |xs| - 1, i == |xs| - 2, inDefault, acc) == Some(c)
    ensures CanonFrom(xs, i, inDefault, acc) == CanonFrom(xs, i + 1, c.inDefault, c.acc)
  {
  }

  /** The forwarding list for the (right-stripped) argument text `args`:
      empty for empty text, otherwise the loop's text right-stripped. */
  function Forwarding(args: string): (r: Option<string>)
    ensures args == "" ==> r == Some("")
    ensures r.Some? ==> r.value == [] || !IsSpace(r.value[|r.value| - 1])
  {
    if args == "" then Some("")
    else
      match CanonFrom(Pieces(SplitChar(Strip(args), ' ')), 0, false, "")
      case None => None
      case Some(t) => Some(RStrip(t))
  }

  /** `CanonNext` for the pieces of `toks`, stated on `toks` itself. */
  lemma CanonNextOn(toks: seq<string>, i: nat, inDefault: bool, acc: string, c: Canon)
    requires i < |toks|
    requires PieceStep(LStripChar(toks[i], '*'), LStripChar(toks[if i == 0 then |toks| - 1 else i - 1], '*'),
                       i == |toks| - 1, i == |toks| - 2, inDefault, acc) == Some(c)
    ensures CanonFrom(Pieces(toks), i, inDefault, acc) == CanonFrom(Pieces(toks), i + 1, c.inDefault, c.acc)
  {
    CanonNext(Pieces(toks), i, inDefault, acc, c);
  }

  /** An empty piece outside a default value ends the loop with the error. */
  lemma CanonFaultOn(toks: seq<string>, i: nat, inDefault: bool, acc: string)
    requires i < |toks|
    requires PieceStep(LStripChar(toks[i], '*'), LStripChar(toks[if i == 0 then |toks| - 1 else i - 1], '*'),
                       i == |toks| - 1, i == |toks| - 2, inDefault, acc) == None
    ensures CanonFrom(Pieces(toks), i, inDefault, acc) == None
  {
  }

  /** The canonicaliser as the source runs it: nothing for empty text,
      otherwise the loop over the space-separated pieces, right-stripped. */
  method Canonicalize(args: string) returns (r: Option<string>)
    ensures r == Forwarding(args)
    ensures args == "" ==> r == Some("")
  {
    if args == "" {
      return Some("");
    }
    var typeless := CanonLoop(SplitChar(Strip(args), ' '));
    if typeless.None? {
      return None;
    }
    r := Some(RStrip(typeless.value));
  }

  /** The loop itself: one pass over the pieces, with a flag that is set by
      `=` and cleared by the piece ending the default value. */
  method CanonLoop(toks: seq<string>) returns (r: Option<string>)
    ensures r == CanonFrom(Pieces(toks), 0, false, "")
  {
    var typeless := "";
    var inDefault := false;
    var i := 0;
    while i < |toks|
      invariant 0 <= i <= |toks|
      invariant CanonFrom(Pieces(toks), i, inDefault, typeless) == CanonFrom(Pieces(toks), 0, false, "")
      decreases |toks| - i
    {
      ghost var inDefault0, typeless0 := inDefault, typeless;
      var token := LStripChar(toks[i], '*');
      if IsEquals(token) {
        inDefault := true;
        token := LStripChar(toks[if i == 0 then |toks| - 1 else i - 1], '*');
      }
      if inDefault {
        if EndsComma(token) || i == |toks| - 1 {
          inDefault := false;
        } else {
          typeless := typeless + token;
          if i != |toks| - 2 {
            typeless := typeless + ", ";
          } else {
            assert typeless == typeless0 + token + "";
          }
        }
      } else if |token| == 0 {
        CanonFaultOn(toks, i, inDefault0, typeless0);
        return None;
      } else if token[|token| - 1] == ',' {
        typeless := typeless + token + " ";
      } else if i == |toks| - 1 {
        typeless := typeless + token;
      }
      CanonNextOn(toks, i, inDefault0, typeless0, Canon(inDefault, typeless));
      i := i + 1;
    }
    r := Some(typeless);
  }

  /** One parameter as the loop sees it: its type pieces, its name piece
      and, when it has a default value, the piece holding that value. */
  datatype Slot = Slot(types: seq<string>, name: string, dflt: Option<string>)

  /** The number of pieces a parameter takes. */
  function SlotSize(s: Slot): nat
  {
    |s.types| + if s.dflt.None? then 1 else 3
  }

  /** The pieces of one parameter; all but the last parameter's end in `,`
      (its default value piece, when it has one, carries that `,`). */
  function SlotPieces(s: Slot, last: bool): (r: seq<string>)
    ensures |r| == SlotSize(s)
  {
    s.types + match s.dflt
      case None => [s.name + (if last then "" else ",")]
      case Some(d) => [s.name, "=", d]
  }

  function SlotsPieces(ss: seq<Slot>): seq<string>
  {
    if ss == [] then [] else SlotPieces(ss[0], |ss| == 1) + SlotsPieces(ss[1..])
  }

  function SlotNames(ss: seq<Slot>): seq<string>
  {
    if ss == [] then [] else [ss[0].name] + SlotNames(ss[1..])
  }

  /** A piece the canonicaliser passes over: non-empty, not `=`, and not
      ending in `,`. */
  predicate PlainPiece(s: string)
  {
    |s| > 0 && !IsEquals(s) && s[|s| - 1] != ','
  }

  predicate AllPlainPieces(ts: seq<string>)
    decreases |ts|
  {
    ts == [] || (PlainPiece(ts[0]) && AllPlainPieces(ts[1..]))
  }

  /** A parameter the canonicaliser handles as intended: plain type and name
      pieces, and a default value that, unless it is the last piece, ends in
      `,`. */
  predicate SlotOk(s: Slot, last: bool)
  {
    && AllPlainPieces(s.types) && PlainPiece(s.name)
    && (s.dflt.Some? && !last ==> EndsComma(s.dflt.value))
  }

  predicate SlotsOk(ss: seq<Slot>)
    decreases |ss|
  {
    ss == [] || (SlotOk(ss[0], |ss| == 1) && SlotsOk(ss[1..]))
  }

  /** The pieces `ts` sit at position `i` of `xs`. */
  predicate TypesAt(xs: seq<string>, i: nat, ts: seq<string>)
    decreases |ts|
  {
    ts == [] || (i < |xs| && xs[i] == ts[0] && TypesAt(xs, i + 1, ts[1..]))
  }

  /** Parameter `s` sits at position `i` of `xs`. */
  predicate SlotAt(xs: seq<string>, i: nat, s: Slot, last: bool)
  {
    var k := |s.types|;
    && i + SlotSize(s) <= |xs| && (last <==> i + SlotSize(s) == |xs|)
    && TypesAt(xs, i, s.types)
    && (s.dflt.None? ==> xs[i + k] == s.name + (if last then "" else ","))
    && (s.dflt.Some? ==> xs[i + k] == s.name && xs[i + k + 1] == "=" && xs[i + k + 2] == s.dflt.value)
  }

  /** The parameters `ss` sit one after another from position `i` of `xs`
      to its end. */
  predicate SlotsAt(xs: seq<string>, i: nat, ss: seq<Slot>)
    decreases |ss|
  {
    if ss == [] then i == |xs|
    else SlotAt(xs, i, ss[0], |ss| == 1) && SlotsAt(xs, i + SlotSize(ss[0]), ss[1..])
  }

  /** The loop variables each kind of piece leaves behind. */
  lemma PlainPieceStep(s: string, prev: string, isPenultimate: bool, acc: string)
    requires PlainPiece(s)
    ensures PieceStep(s, prev, false, isPenultimate, false, acc) == Some(Canon(false, acc))
  {
  }

  lemma NamePieceStep(s: string, prev: string, isPenultimate: bool, acc: string)
    requires PlainPiece(s)
    ensures PieceStep(s + ",", prev, false, isPenultimate, false, acc) == Some(Canon(false, acc + s + ", "))
  {
    assert (s + ",")[|s|] == ',';
    assert acc + (s + ",") + " " == acc + s + ", ";
  }

  lemma LastNamePieceStep(s: string, prev: string, acc: string)
    requires PlainPiece(s)
    ensures PieceStep(s, prev, true, false, false, acc) == Some(Canon(false, acc + s))
  {
  }

  lemma EqualsPieceStep(s: string, last: bool, acc: string)
    requires PlainPiece(s)
    ensures PieceStep("=", s, false, last, false, acc) == Some(Canon(true, acc + s + (if last then "" else ", ")))
  {
  }

  lemma DefaultPieceStep(d: string, prev: string, last: bool, acc: string)
    requires last || EndsComma(d)
    ensures PieceStep(d, prev, last, false, true, acc) == Some(Canon(false, acc))
  {
  }

  /** A plain piece leaves the loop's state as it is. */
  lemma PlainStep(xs: seq<string>, i: nat, acc: string)
    requires i + 1 < |xs| && PlainPiece(xs[i])
    ensures CanonFrom(xs, i, false, acc) == CanonFrom(xs, i + 1, false, acc)
  {
    PlainPieceStep(xs[i], Prev(xs, i), i == |xs| - 2, acc);
    CanonNext(xs, i, false, acc, Canon(false, acc));
  }

  /** So does a run of plain pieces before the last piece. */
  lemma {:induction false} SkipTypes(xs: seq<string>, i: nat, ts: seq<string>, acc: string)
    requires i + |ts| < |xs| && TypesAt(xs, i, ts) && AllPlainPieces(ts)
    ensures CanonFrom(xs, i, false, acc) == CanonFrom(xs, i + |ts|, false, acc)
    decreases |ts|
  {
    if ts != [] {
      PlainStep(xs, i, acc);
      SkipTypes(xs, i + 1, ts[1..], acc);
    }
  }

  /** A name without a default adds itself, and `, ` unless it is the last
      one. */
  lemma NameStep(xs: seq<string>, i: nat, s: string, last: bool, acc: string)
    requires i < |xs| && PlainPiece(s)
    requires xs[i] == s + (if last then "" else ",")
    requires last <==> i == |xs| - 1
    ensures CanonFrom(xs, i, false, acc) == CanonFrom(xs, i + 1, false, acc + s + (if last then "" else ", "))
  {
    if !last {
      NamePieceStep(s, Prev(xs, i), i == |xs| - 2, acc);
      CanonNext(xs, i, false, acc, Canon(false, acc + s + ", "));
    } else {
      assert xs[i] == s;
      LastNamePieceStep(s, Prev(xs, i), acc);
      CanonNext(xs, i, false, acc, Canon(false, acc + s));
      assert acc + s + "" == acc + s;
    }
  }

  /** A name, `=` and a default value add the name, and `, ` unless it is
      the last parameter; the default never reaches the list. */
  lemma DefaultStep(xs: seq<string>, i: nat, s: string, d: string, last: bool, acc: string)
    requires i + 2 < |xs| && PlainPiece(s) && (last || EndsComma(d))
    requires xs[i] == s && xs[i + 1] == "=" && xs[i + 2] == d
    requires last <==> i + 2 == |xs| - 1
    ensures CanonFrom(xs, i, false, acc) == CanonFrom(xs, i + 3, false, acc + s + (if last then "" else ", "))
  {
    PlainStep(xs, i, acc);
    EqualsStep(xs, i + 1, s, last, acc);
    DefaultValueStep(xs, i + 2, last, acc + s + (if last then "" else ", "));
  }

  lemma EqualsStep(xs: seq<string>, i: nat, s: string, last: bool, acc: string)
    requires 0 < i < |xs| - 1 && xs[i] == "=" && PlainPiece(s) && xs[i - 1] == s
    requires last <==> i == |xs| - 2
    ensures CanonFrom(xs, i, false, acc) == CanonFrom(xs, i + 1, true, acc + s + (if last then "" else ", "))
  {
    EqualsPieceStep(s, last, acc);
    CanonNext(xs, i, false, acc, Canon(true, acc + s + (if last then "" else ", ")));
  }

  lemma DefaultValueStep(xs: seq<string>, i: nat, last: bool, acc: string)
    requires i < |xs| && (last <==> i == |xs| - 1)
    requires !last ==> EndsComma(xs[i])
    ensures CanonFrom(xs, i, true, acc) == CanonFrom(xs, i + 1, false, acc)
  {
    DefaultPieceStep(xs[i], Prev(xs, i), last, acc);
    CanonNext(xs, i, true, acc, Canon(false, acc));
  }

  /** One parameter's pieces at position `i`. */
  lemma SlotStep(xs: seq<string>, i: nat, s: Slot, last: bool, acc: string)
    requires SlotOk(s, last) && SlotAt(xs, i, s, last)
    ensures CanonFrom(xs, i, false, acc)
         == CanonFrom(xs, i + SlotSize(s), false, acc + s.name + (if last then "" else ", "))
  {
    var k := |s.types|;
    SkipTypes(xs, i, s.types, acc);
    if s.dflt.None? {
      NameStep(xs, i + k, s.name, last, acc);
    } else {
      DefaultStep(xs, i + k, s.name, s.dflt.value, last, acc);
    }
  }

  lemma JoinCommaCons(acc: string, ns: seq<string>)
    requires |ns| > 1
    ensures acc + ns[0] + ", " + JoinComma(ns[1..]) == acc + JoinComma(ns)
  {
  }

  /** `", ".join(ns)` */
  function JoinComma(ns: seq<string>): string
  {
    if |ns| == 0 then "" else if |ns| == 1 then ns[0] else ns[0] + ", " + JoinComma(ns[1..])
  }

  /** The loop over well-formed parameters yields their names, in order,
      separated by `, `. */
  lemma {:induction false} SlotsStep(xs: seq<string>, i: nat, ss: seq<Slot>, acc: string)
    requires ss != [] && SlotsOk(ss) && SlotsAt(xs, i, ss)
    ensures CanonFrom(xs, i, false, acc) == Some(acc + JoinComma(SlotNames(ss)))
    decreases |ss|
  {
    var last := |ss| == 1;
    SlotStep(xs, i, ss[0], last, acc);
    var names := SlotNames(ss);
    assert names == [ss[0].name] + SlotNames(ss[1..]);
    if last {
      assert acc + ss[0].name + "" == acc + JoinComma(names);
    } else {
      SlotsStep(xs, i + SlotSize(ss[0]), ss[1..], acc + ss[0].name + ", ");
      assert names[1..] == SlotNames(ss[1..]);
      JoinCommaCons(acc, names);
    }
  }

  /** One parameter as written in the header: its type tokens, the `*`s
      glued to its name, the name, and an optional one-token default
      value. */
  datatype Param = Param(typeTokens: seq<string>, stars: nat, name: string, dflt: Option<string>)

  /** `"*" * n` */
  function Stars(n: nat): string
  {
    if n == 0 then "" else "*" + Stars(n - 1)
  }

  /** The tokens of one parameter; every parameter but the last ends in `,`. */
  function ParamTokens(p: Param, last: bool): seq<string>
  {
    var comma := if last then "" else ",";
    p.typeTokens + match p.dflt
      case None => [Stars(p.stars) + p.name + comma]
      case Some(v) => [Stars(p.stars) + p.name, "=", v + comma]
  }

  function ParamsTokens(ps: seq<Param>): seq<string>
  {
    if ps == [] then [] else ParamTokens(ps[0], |ps| == 1) + ParamsTokens(ps[1..])
  }

  function ParamNames(ps: seq<Param>): seq<string>
  {
    if ps == [] then [] else [ps[0].name] + ParamNames(ps[1..])
  }

  /** A word that does not start with `*`. */
  predicate Starless(w: string)
  {
    IsWord(w) && w[0] != '*'
  }

  /** A parameter written the way the canonicaliser expects: each type
      token a word whose starless part is a plain piece, a plain starless
      name, and a starless default value. */
  predicate ParamOk(p: Param)
  {
    && (forall j :: 0 <= j < |p.typeTokens| ==>
          IsWord(p.typeTokens[j]) && PlainPiece(LStripChar(p.typeTokens[j], '*')))
    && Starless(p.name) && PlainPiece(p.name)
    && (p.dflt.Some? ==> Starless(p.dflt.value))
  }

  predicate ParamsOk(ps: seq<Param>)
    decreases |ps|
  {
    ps == [] || (ParamOk(ps[0]) && ParamsOk(ps[1..]))
  }

  /** The loop's view of a parameter. */
  function SlotOf(p: Param, last: bool): Slot
  {
    Slot(Pieces(p.typeTokens), p.name,
         match p.dflt case None => None case Some(v) => Some(v + if last then "" else ","))
  }

  function SlotsOf(ps: seq<Param>): (r: seq<Slot>)
    ensures |r| == |ps|
  {
    if ps == [] then [] else [SlotOf(ps[0], |ps| == 1)] + SlotsOf(ps[1..])
  }

  lemma {:induction false} LStripStars(n: nat, s: string)
    requires |s| > 0 && s[0] != '*'
    ensures LStripChar(Stars(n) + s, '*') == s
    decreases n
  {
    if n > 0 {
      assert Stars(n) + s == "*" + (Stars(n - 1) + s);
      assert ("*" + (Stars(n - 1) + s))[1..] == Stars(n - 1) + s;
      LStripStars(n - 1, s);
    }
  }

  lemma PiecesAppend(a: seq<string>, b: seq<string>)
    ensures Pieces(a + b) == Pieces(a) + Pieces(b)
  {
    assert forall j :: 0 <= j < |b| ==> (a + b)[|a| + j] == b[j];
  }

  /** Stripping the `*`s off a parameter's tokens gives its slot's pieces. */
  lemma ParamPieces(p: Param, last: bool)
    requires ParamOk(p)
    ensures Pieces(ParamTokens(p, last)) == SlotPieces(SlotOf(p, last), last)
  {
    var comma := if last then "" else ",";
    var tail := match p.dflt
      case None => [Stars(p.stars) + p.name + comma]
      case Some(v) => [Stars(p.stars) + p.name, "=", v + comma];
    assert ParamTokens(p, last) == p.typeTokens + tail;
    PiecesAppend(p.typeTokens, tail);
    match p.dflt
    case None =>
      LStripStars(p.stars, p.name + comma);
      assert Stars(p.stars) + p.name + comma == Stars(p.stars) + (p.name + comma);
    case Some(v) =>
      LStripStars(p.stars, p.name);
      assert LStripChar(v + comma, '*') == v + comma;
  }

  lemma {:induction false} ParamsPieces(ps: seq<Param>)
    requires ParamsOk(ps)
    ensures Pieces(ParamsTokens(ps)) == SlotsPieces(SlotsOf(ps))
    decreases |ps|
  {
    if ps != [] {
      ParamPieces(ps[0], |ps| == 1);
      ParamsPieces(ps[1..]);
      PiecesAppend(ParamTokens(ps[0], |ps| == 1), ParamsTokens(ps[1..]));
      assert SlotsOf(ps)[1..] == SlotsOf(ps[1..]);
    }
  }

  lemma AllPlainOf(ts: seq<string>)
    requires forall j :: 0 <= j < |ts| ==> PlainPiece(LStripChar(ts[j], '*'))
    ensures AllPlainPieces(Pieces(ts))
    decreases |ts|
  {
    if ts != [] {
      AllPlainOf(ts[1..]);
      assert Pieces(ts)[1..] == Pieces(ts[1..]);
    }
  }

  lemma {:induction false} SlotsOkOf(ps: seq<Param>)
    requires ParamsOk(ps)
    ensures SlotsOk(SlotsOf(ps))
    decreases |ps|
  {
    if ps != [] {
      AllPlainOf(ps[0].typeTokens);
      SlotsOkOf(ps[1..]);
      assert SlotsOf(ps)[1..] == SlotsOf(ps[1..]);
      var last := |ps| == 1;
      if ps[0].dflt.Some? && !last {
        var d := ps[0].dflt.value + ",";
        assert d[|d| - 1] == ',';
      }
    }
  }

  lemma {:induction false} SlotNamesOf(ps: seq<Param>)
    ensures SlotNames(SlotsOf(ps)) == ParamNames(ps)
    decreases |ps|
  {
    if ps != [] {
      SlotNamesOf(ps[1..]);
      assert SlotsOf(ps)[1..] == SlotsOf(ps[1..]);
    }
  }

  lemma {:induction false} TypesLaidOut(pre: seq<string>, ts: seq<string>, post: seq<string>)
    ensures TypesAt(pre + ts + post, |pre|, ts)
    decreases |ts|
  {
    if ts != [] {
      assert (pre + ts + post)[|pre|] == ts[0];
      assert pre + ts + post == (pre + [ts[0]]) + ts[1..] + post;
      TypesLaidOut(pre + [ts[0]], ts[1..], post);
    }
  }

  /** A slot written between `pre` and `post` is found right after `pre`. */
  lemma SlotLaidOut(pre: seq<string>, s: Slot, last: bool, post: seq<string>)
    requires last <==> post == []
    ensures SlotAt(pre + SlotPieces(s, last) + post, |pre|, s, last)
  {
    var mine := SlotPieces(s, last);
    var tail := mine[|s.types|..];
    assert mine == s.types + tail;
    ConcatAssoc(pre, mine, post);
    ConcatAssoc(s.types, tail, post);
    ConcatAssoc(pre, s.types, tail + post);
    TypesLaidOut(pre, s.types, tail + post);
  }

  /** Slots written one after another are found where they were written. */
  lemma {:induction false} SlotsLaidOut(pre: seq<string>, ss: seq<Slot>)
    ensures SlotsAt(pre + SlotsPieces(ss), |pre|, ss)
    decreases |ss|
  {
    if ss != [] {
      var mine := SlotPieces(ss[0], |ss| == 1);
      var rest := SlotsPieces(ss[1..]);
      assert SlotsPieces(ss) == mine + rest;
      assert |ss| > 1 ==> |rest| >= SlotSize(ss[1]) > 0;
      SlotLaidOut(pre, ss[0], |ss| == 1, rest);
      SlotsLaidOut(pre + mine, ss[1..]);
      ConcatAssoc(pre, mine, rest);
    }
  }

  lemma {:induction false} StarsAreStars(n: nat)
    ensures |Stars(n)| == n && forall i :: 0 <= i < n ==> Stars(n)[i] == '*'
    decreases n
  {
    if n > 0 {
      StarsAreStars(n - 1);
      assert forall i :: 1 <= i < n ==> Stars(n)[i] == Stars(n - 1)[i - 1];
    }
  }

  /** Every token of a well-formed parameter list is a word. */
  lemma {:induction false} ParamsWords(ps: seq<Param>)
    requires ParamsOk(ps)
    ensures forall i :: 0 <= i < |ParamsTokens(ps)| ==> IsWord(ParamsTokens(ps)[i])
    decreases |ps|
  {
    if ps != [] {
      var p := ps[0];
      var comma := if |ps| == 1 then "" else ",";
      ParamsWords(ps[1..]);
      StarsAreStars(p.stars);
      var decl := Stars(p.stars) + p.name;
      assert IsWord(decl) by {
        forall i | 0 <= i < |decl| ensures !IsSpace(decl[i]) {
          if i >= p.stars { assert decl[i] == p.name[i - p.stars]; }
        }
      }
      assert IsWord(decl + comma) by {
        forall i | 0 <= i < |decl + comma| ensures !IsSpace((decl + comma)[i]) {
          if i < |decl| { assert (decl + comma)[i] == decl[i]; }
        }
      }
      if p.dflt.Some? {
        var v := p.dflt.value;
        assert IsWord(v + comma) by {
          forall i | 0 <= i < |v + comma| ensures !IsSpace((v + comma)[i]) {
            if i < |v| { assert (v + comma)[i] == v[i]; }
          }
        }
      }
      assert decl + comma == Stars(p.stars) + p.name + comma;
      var mine := ParamTokens(p, |ps| == 1);
      assert forall i :: 0 <= i < |mine| ==> IsWord(mine[i]);
      var all := ParamsTokens(ps);
      assert all == mine + ParamsTokens(ps[1..]);
      assert forall i :: |mine| <= i < |all| ==> all[i] == ParamsTokens(ps[1..])[i - |mine|];
    }
  }

  lemma {:induction false} ParamNamesWords(ps: seq<Param>)
    requires ParamsOk(ps)
    ensures |ParamNames(ps)| == |ps|
    ensures forall i :: 0 <= i < |ps| ==> IsWord(ParamNames(ps)[i])
    decreases |ps|
  {
    if ps != [] {
      ParamNamesWords(ps[1..]);
      assert forall i :: 1 <= i < |ps| ==> ParamNames(ps)[i] == ParamNames(ps[1..])[i - 1];
    }
  }

  lemma {:induction false} JoinCommaLast(ns: seq<string>)
    requires ns != [] && |ns[|ns| - 1]| > 0
    ensures var s := JoinComma(ns); |s| > 0 && s[|s| - 1] == ns[|ns| - 1][|ns[|ns| - 1]| - 1]
    decreases |ns|
  {
    if |ns| > 1 {
      JoinCommaLast(ns[1..]);
    }
  }

  /** The pieces the canonicaliser sees in the text of a well-formed,
      non-empty parameter list are its slots' pieces. */
  lemma TextPieces(ps: seq<Param>)
    requires ps != [] && ParamsOk(ps)
    ensures JoinSpace(ParamsTokens(ps)) != ""
    ensures Pieces(SplitChar(Strip(JoinSpace(ParamsTokens(ps))), ' ')) == SlotsPieces(SlotsOf(ps))
  {
    var ts := ParamsTokens(ps);
    ParamsWords(ps);
    assert |ts| > 0 by {
      assert |ParamTokens(ps[0], |ps| == 1)| > 0;
    }
    JoinSpaceHead(ts);
    JoinSpaceTrimmed(ts);
    StripTrimmed(JoinSpace(ts));
    SplitSpaceJoin(ts);
    ParamsPieces(ps);
  }

  /** The loop over those pieces gathers the names. */
  lemma LoopParams(ps: seq<Param>)
    requires ps != [] && ParamsOk(ps)
    ensures CanonFrom(SlotsPieces(SlotsOf(ps)), 0, false, "") == Some(JoinComma(ParamNames(ps)))
  {
    var ss := SlotsOf(ps);
    SlotsOkOf(ps);
    SlotsLaidOut([], ss);
    assert [] + SlotsPieces(ss) == SlotsPieces(ss);
    SlotsStep(SlotsPieces(ss), 0, ss, "");
    SlotNamesOf(ps);
    assert "" + JoinComma(SlotNames(ss)) == JoinComma(SlotNames(ss));
  }

  /** The names list ends in a name, so the final `rstrip()` keeps it. */
  lemma NamesStripped(ps: seq<Param>)
    requires ps != [] && ParamsOk(ps)
    ensures RStrip(JoinComma(ParamNames(ps))) == JoinComma(ParamNames(ps))
  {
    var names := ParamNames(ps);
    ParamNamesWords(ps);
    JoinCommaLast(names);
  }

  /** The canonicaliser applied to the text of a well-formed, non-empty
      parameter list gives the parameter names, in order, separated by
      `, `: types, `*`s and default values are gone. */
  lemma ForwardingParams(ps: seq<Param>)
    requires ps != [] && ParamsOk(ps)
    ensures Forwarding(JoinSpace(ParamsTokens(ps))) == Some(JoinComma(ParamNames(ps)))
  {
    TextPieces(ps);
    LoopParams(ps);
    NamesStripped(ps);
  }
}
