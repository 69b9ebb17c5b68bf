/** The C wrapper emitted for one complete declaration: the exported
    function's header line, the forwarding call through the interface
    accessor, and the closing lines. */
module Emitter {
  import opened TextOps
  import opened SignatureParser
  import opened ArgumentCanonicalizer

  /** The namespace the HTML surface's enumerations live in. */
  const HtmlScope: string := "ISteamHTMLSurface::"

  /** A key of the type table: a non-empty type name. */
  type Key = s: string | |s| > 0 witness "E"

  /** The parameter types that need qualifying, in the table's iteration
      order. */
  const TypeKeys: seq<Key> := ["EHTMLMouseButton", "EHTMLKeyModifiers"]

  /** The parameter text after the table has been applied key by key: a key
      that occurs is replaced, everywhere, by its qualified name. */
  function Translated(args: string, keys: seq<Key>): (r: string)
    ensures |r| >= |args|
    decreases |keys|
  {
    if keys == [] then args
    else
      var k := keys[0];
      ReplaceLonger(args, k, HtmlScope + k);
      Translated(if Contains(args, k) then Replace(args, k, HtmlScope + k) else args, keys[1..])
  }

  /** A text holding none of the keys is not touched. */
  lemma {:induction false} TranslatedUntouched(args: string, keys: seq<Key>)
    requires forall k :: 0 <= k < |keys| ==> !Contains(args, keys[k])
    ensures Translated(args, keys) == args
    decreases |keys|
  {
    if keys != [] {
      TranslatedUntouched(args, keys[1..]);
    }
  }

  /** Replacing a key that occurs leaves its replacement in the text. */
  lemma {:induction false} ReplaceIntroduces(s: string, key: string, with: string)
    requires |key| > 0 && Contains(s, key)
    ensures Contains(Replace(s, key, with), with)
    decreases |s|
  {
    var r := Replace(s, key, with);
    FindSpec(s, key);
    if s[..|key|] == key {
      assert r[0..] == with + Replace(s[|key|..], key, with);
      ContainsAt(r, with, 0);
    } else {
      assert !StartsWith(s, key);
      var k := Find(s, key);
      assert k > 0;
      assert StartsWith(s[1..][k - 1..], key) by {
        assert s[1..][k - 1..] == s[k..];
      }
      ContainsAt(s[1..], key, k - 1);
      ReplaceIntroduces(s[1..], key, with);
      var t := Replace(s[1..], key, with);
      assert r == [s[0]] + t;
      var j := Find(t, with);
      FindSpec(t, with);
      assert r[1 + j..] == t[j..];
      ContainsAt(r, with, 1 + j);
    }
  }

  /** The last key of the table, when it occurs in the text the earlier keys
      leave, comes out qualified. */
  lemma TranslatedQualifiesLast(args: string)
    requires Contains(if Contains(args, TypeKeys[0])
                      then Replace(args, TypeKeys[0], HtmlScope + TypeKeys[0]) else args, TypeKeys[1])
    ensures Contains(Translated(args, TypeKeys), HtmlScope + TypeKeys[1])
  {
    var mid := if Contains(args, TypeKeys[0]) then Replace(args, TypeKeys[0], HtmlScope + TypeKeys[0]) else args;
    assert TypeKeys[1..] == [TypeKeys[1]] && TypeKeys[1..][1..] == [];
    ReplaceIntroduces(mid, TypeKeys[1], HtmlScope + TypeKeys[1]);
  }

  /** The table applied by the source's loop over its keys. */
  method TranslateTypes(args: string) returns (r: string)
    ensures r == Translated(args, TypeKeys)
  {
    r := args;
    var i := 0;
    while i < |TypeKeys|
      invariant 0 <= i <= |TypeKeys|
      invariant Translated(r, TypeKeys[i..]) == Translated(args, TypeKeys)
    {
      var key := TypeKeys[i];
      assert TypeKeys[i..][0] == key && TypeKeys[i..][1..] == TypeKeys[i + 1..];
      if Contains(r, key) {
        r := Replace(r, key, HtmlScope + key);
      }
      i := i + 1;
    }
  }

  /** The C return type for a declared return type: the text trimmed, except
      that the class `CSteamID`, which cannot cross the C ABI, becomes the
      integer `SteamID_t`; the flag says the call result must be converted. */
  function ExportedReturn(returnValue: string): (r: (string, bool))
    ensures r.0 != "CSteamID"
    ensures r.1 <==> Strip(returnValue) == "CSteamID"
    ensures r.1 ==> r.0 == "SteamID_t"
    ensures !r.1 ==> r.0 == Strip(returnValue)
  {
    var rv := Strip(returnValue);
    if rv == "CSteamID" then ("SteamID_t", true) else (rv, false)
  }

  /** The four output lines for a wrapper exported as `name` with C return
      type and parameter text as given, calling `realName` with `forward`
      on the accessor of interface `iface`. */
  function WrapperLines(returnValue: string, name: string, realName: string, args: string,
                        iface: string, forward: string): (r: seq<string>)
    ensures |r| == 4 && r[2] == "}" && r[3] == ""
    ensures var converted := Strip(returnValue) == "CSteamID";
            var rt := if converted then "SteamID_t" else Strip(returnValue);
            && r[0] == "SB_API " + rt + " S_CALLTYPE " + name + "(" + args + ") {"
            && r[1] == "\treturn " + DropFirst(iface) + "()->" + realName + "(" + forward
                       + (if converted then ").ConvertToUint64();" else ");")
  {
    var (rt, convert) := ExportedReturn(returnValue);
    var call := "\treturn " + DropFirst(iface) + "()->" + realName + "(" + forward;
    ["SB_API " + rt + " S_CALLTYPE " + name + "(" + args + ") {",
     call + (if convert then ").ConvertToUint64();" else ");"),
     "}",
     ""]
  }

  /** The wrapper for a completed signature inside interface `iface`, or
      `None` when the argument canonicaliser fails. */
  function Emit(sig: Signature, iface: string): (r: Option<seq<string>>)
    ensures RStrip(sig.args) == "" ==> r.Some?
    ensures r.Some? ==> |r.value| == 4 && r.value[2] == "}" && r.value[3] == ""
  {
    var args := RStrip(sig.args);
    match Forwarding(args)
    case None => None
    case Some(forward) =>
      Some(WrapperLines(sig.returnValue, sig.methodName, sig.realMethodName,
                        Translated(args, TypeKeys), iface, forward))
  }

  /** The emission as the source performs it. */
  method EmitWrapper(sig: Signature, iface: string) returns (r: Option<seq<string>>)
    ensures r == Emit(sig, iface)
  {
    var args := RStrip(sig.args);
    var forward := Canonicalize(args);
    if forward.None? {
      return None;
    }
    var translated := TranslateTypes(args);
    r := Some(WrapperLines(sig.returnValue, sig.methodName, sig.realMethodName,
                           translated, iface, forward.value));
  }

  /** The call line forwards the declared class's methods through its
      accessor: for `ISteamUser` the wrapper calls `SteamUser()`. A call
      returning `CSteamID` is converted to the integer the header line
      declares; any other call is returned as it is. */
  lemma CallThroughAccessor(returnValue: string, name: string, realName: string, args: string,
                            iface: string, forward: string)
    requires |iface| > 0
    ensures var r := WrapperLines(returnValue, name, realName, args, iface, forward);
            var call := "\treturn " + iface[1..] + "()->" + realName + "(" + forward + ")";
            && (Strip(returnValue) == "CSteamID" ==>
                  StartsWith(r[0], "SB_API SteamID_t S_CALLTYPE ") && r[1] == call + ".ConvertToUint64();")
            && (Strip(returnValue) != "CSteamID" ==>
                  StartsWith(r[0], "SB_API " + Strip(returnValue) + " S_CALLTYPE " + name + "(")
                  && r[1] == call + ";")
  {
    if Strip(returnValue) == "CSteamID" {
      ConvertedCall(returnValue, name, realName, args, iface, forward);
    } else {
      PlainCall(returnValue, name, realName, args, iface, forward);
    }
  }

  lemma ConvertedCall(returnValue: string, name: string, realName: string, args: string,
                      iface: string, forward: string)
    requires |iface| > 0 && Strip(returnValue) == "CSteamID"
    ensures var r := WrapperLines(returnValue, name, realName, args, iface, forward);
            var call := "\treturn " + iface[1..] + "()->" + realName + "(" + forward + ")";
            StartsWith(r[0], "SB_API SteamID_t S_CALLTYPE ") && r[1] == call + ".ConvertToUint64();"
  {
    assert DropFirst(iface) == iface[1..];
    var pre := "\treturn " + iface[1..] + "()->" + realName + "(" + forward;
    CallSuffix(pre, ").ConvertToUint64();", ".ConvertToUint64();");
    HeadPrefix("SB_API " + "SteamID_t" + " S_CALLTYPE ", name + "(" + args + ") {");
    ConvertedHead();
  }

  lemma ConvertedHead()
    ensures "SB_API " + "SteamID_t" + " S_CALLTYPE " == "SB_API SteamID_t S_CALLTYPE "
  {
  }

  lemma PlainCall(returnValue: string, name: string, realName: string, args: string,
                  iface: string, forward: string)
    requires |iface| > 0 && Strip(returnValue) != "CSteamID"
    ensures var r := WrapperLines(returnValue, name, realName, args, iface, forward);
            var call := "\treturn " + iface[1..] + "()->" + realName + "(" + forward + ")";
            StartsWith(r[0], "SB_API " + Strip(returnValue) + " S_CALLTYPE " + name + "(") && r[1] == call + ";"
  {
    assert DropFirst(iface) == iface[1..];
    var pre := "\treturn " + iface[1..] + "()->" + realName + "(" + forward;
    CallSuffix(pre, ");", ";");
    HeadPrefix("SB_API " + Strip(returnValue) + " S_CALLTYPE " + name + "(", args + ") {");
  }

  lemma CallSuffix(pre: string, tail: string, rest: string)
    requires tail == ")" + rest
    ensures pre + tail == pre + ")" + rest
  {
  }

  lemma HeadPrefix(h: string, rest: string)
    ensures StartsWith(h + rest, h)
  {
    Affixes(h, rest);
  }

  /** A well-formed declaration with a well-formed parameter list is
      emitted with its parameter names as the forwarded arguments and its
      parameter text, types qualified, as the exported parameters. */
  lemma EmitDeclaration(d: Declaration, ps: seq<Param>, iface: string, name: string)
    requires ParamsOk(ps) && d.argTokens == ParamsTokens(ps)
    ensures var sig := Signature(ReturnType, Spaced(d.returnTokens) + (if d.starred then "*" else ""),
                                 name, d.name, Spaced(d.argTokens));
            Emit(sig, iface)
            == Some(WrapperLines(sig.returnValue, name, d.name,
                                 Translated(JoinSpace(ParamsTokens(ps)), TypeKeys), iface,
                                 JoinComma(ParamNames(ps))))
  {
    ParamsWords(ps);
    SpacedJoin(d.argTokens);
    if ps != [] {
      ForwardingParams(ps);
    }
  }
}
