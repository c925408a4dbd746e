/** What the text of a flow description says: where the parts of a rule stand in it, what Decode reads of it and
    what it drops. */
module FlowReadings {
  import opened Options
  import opened Texts
  import opened FlowDescs

  // ---------------------------------------------------------------- where the fields of a rule stand

  /** A field of ports, absent where there are no ports. */
  ghost predicate PortField(field: seq<string>, ports: seq<PortRange>) {
    if field == [] then ports == [] else |field| == 1 && PortsOf(field[0]) == Some(ports)
  }

  /** What may follow the destination address: its ports, or anything else that is then dropped. */
  ghost predicate PortTail(rest: seq<string>, ports: seq<PortRange>) {
    if rest != [] && PortsOf(rest[0]).Some? then PortsOf(rest[0]) == Some(ports) else ports == []
  }

  /** The fields `f` write the rule `r`: action and direction, the protocol, the source behind `from`, the
      destination behind `to`, each address followed by its ports. */
  ghost predicate Writes(net: Net, f: seq<string>, r: Rule) {
    exists action, proto, src, sport, dst, rest ::
      && f == Layout(action, proto, src, sport, dst, rest)
      && (action == "permit" || action == "deny") && r.action == action && r.dir == "out"
      && ProtoOf(proto) == Some(r.proto)
      && ParseAddr(net, src) == Some(r.src) && PortField(sport, r.srcPorts)
      && ParseAddr(net, dst) == Some(r.dst) && PortTail(rest, r.dstPorts)
  }

  function Layout(action: string, proto: string, src: string, sport: seq<string>, dst: string, rest: seq<string>): seq<string> {
    [action, "out", proto, "from", src] + sport + ["to", dst] + rest
  }

  /** Decode returns a rule iff the fields of the text write it. */
  lemma DecodeReadsIff(net: Net, text: string, r: Rule)
    ensures RuleOf(net, text) == Some(r) <==> Writes(net, Fields(Lower(net, text)), r)
  {
    hide ProtoOf, PortsOf, ParseAddr, Fields, Lower;
    var f := Fields(Lower(net, text));
    ToIsNoPort();
    if RuleOf(net, text) == Some(r) {
      ReadIsWritten(net, f, r);
    }
    if Writes(net, f, r) {
      var action, proto, src, sport, dst, rest :|
        && f == Layout(action, proto, src, sport, dst, rest)
        && (action == "permit" || action == "deny") && r.action == action && r.dir == "out"
        && ProtoOf(proto) == Some(r.proto)
        && ParseAddr(net, src) == Some(r.src) && PortField(sport, r.srcPorts)
        && ParseAddr(net, dst) == Some(r.dst) && PortTail(rest, r.dstPorts);
      WrittenIsRead(net, action, proto, src, sport, dst, rest, r);
    }
  }

  lemma ReadIsWritten(net: Net, f: seq<string>, r: Rule)
    requires RuleOfParts(net, f) == Some(r)
    ensures Writes(net, f, r)
  {
    hide ProtoOf, PortsOf, ParseAddr;
    var k := if PortsOf(f[5]).Some? then 6 else 5;
    var sport, rest := f[5..k], f[k + 2..];
    assert f == Layout(f[0], f[2], f[4], sport, f[k + 1], rest);
    assert PortField(sport, r.srcPorts) && PortTail(rest, r.dstPorts);
  }

  lemma WrittenIsRead(net: Net, action: string, proto: string, src: string, sport: seq<string>, dst: string,
                      rest: seq<string>, r: Rule)
    requires (action == "permit" || action == "deny") && r.action == action && r.dir == "out"
    requires ProtoOf(proto) == Some(r.proto)
    requires ParseAddr(net, src) == Some(r.src) && PortField(sport, r.srcPorts)
    requires ParseAddr(net, dst) == Some(r.dst) && PortTail(rest, r.dstPorts)
    ensures RuleOfParts(net, Layout(action, proto, src, sport, dst, rest)) == Some(r)
  {
    hide ProtoOf, PortsOf, ParseAddr;
    ToIsNoPort();
    var f, k := Layout(action, proto, src, sport, dst, rest), 5 + |sport|;
    assert f[0] == action && f[1] == "out" && f[2] == proto && f[3] == "from" && f[4] == src;
    assert f[k] == "to" && f[k + 1] == dst && f[k + 2..] == rest;
    assert |sport| == 1 ==> f[5] == sport[0];
    assert rest != [] ==> f[k + 2] == rest[0];
  }

  /** The fields of an encoded text: the source stands behind `from` and the destination behind `to`, each with
      its ports, and an empty address is written `any`. */
  lemma EncodedFields(net: Net, r: Rule)
    requires Lawful(net) && RuleText(net, r).Some?
    ensures Fields(RuleText(net, r).value) ==
            Layout(r.action, if r.proto == 252 then "ip" else Itoa(r.proto),
                   if r.src == "" then "any" else r.src, if r.srcPorts == [] then [] else [PortsText(r.srcPorts)],
                   if r.dst == "" then "any" else r.dst, if r.dstPorts == [] then [] else [PortsText(r.dstPorts)])
    ensures r.dir == "out"
  {
    hide Fields, Join, PortsText, Itoa, IsToken;
    PrintedTokens(net, r);
    FieldsUndoJoin(Tokens(r));
  }

  lemma PrintedTokens(net: Net, r: Rule)
    requires Lawful(net) && Encodable(net, r)
    ensures forall i :: 0 <= i < |Tokens(r)| ==> IsToken(Tokens(r)[i])
  {
    hide Lower, PortsText, ProtoText, Lawful, IsToken, ValidAddr, AddrText;
    KeywordsLower(net, r);
    PortTokensLower(net, r.srcPorts);
    PortTokensLower(net, r.dstPorts);
    AddrIsToken(net, r.src);
    AddrIsToken(net, r.dst);
    forall s | s in Tokens(r) ensures IsToken(s) {
      assert s in [r.action, r.dir, ProtoText(r.proto), "from", "to"] || s == AddrText(r.src) || s == AddrText(r.dst)
          || s in PortTokens(r.srcPorts) || s in PortTokens(r.dstPorts);
    }
  }

  lemma AddrIsToken(net: Net, s: string)
    requires Lawful(net) && (s == "" || ValidAddr(net, s))
    ensures IsToken(AddrText(s))
  {
    PlainIsLower(net, "any");
    PlainIsLower(net, "assigned");
  }

  /** Encode accepts exactly the rules that permit or deny, outwards, between addresses that Decode reads, the
      empty one aside. */
  lemma EncodeAcceptsIff(net: Net, r: Rule)
    ensures RuleText(net, r).Some? <==>
            && (r.action == "permit" || r.action == "deny") && r.dir == "out"
            && (r.src == "" || ParseAddr(net, r.src).Some?) && (r.dst == "" || ParseAddr(net, r.dst).Some?)
  {
    SameAddresses(net, r.src);
    SameAddresses(net, r.dst);
  }

  lemma SameAddresses(net: Net, s: string)
    ensures ValidAddr(net, s) <==> ParseAddr(net, s).Some?
  {
  }

  /** A list of ports is the elements between commas, each read by itself. */
  lemma PortsReadIff(parts: seq<string>, ps: seq<PortRange>)
    requires parts != [] && forall i :: 0 <= i < |parts| ==> ',' !in parts[i]
    ensures PortsOf(Join(parts, ",")) == Some(ps) <==>
            |parts| == |ps| && forall i :: 0 <= i < |ps| ==> PortOf(parts[i]) == Some(ps[i])
  {
    hide Split, Join, PortOf;
    SplitUndoesJoin(parts, ',');
    PartsReadIff(parts, ps);
  }

  lemma {:induction false} PartsReadIff(parts: seq<string>, ps: seq<PortRange>)
    ensures PortsOfParts(parts) == Some(ps) <==>
            |parts| == |ps| && forall i :: 0 <= i < |ps| ==> PortOf(parts[i]) == Some(ps[i])
  {
    hide PortOf;
    if parts != [] {
      if ps != [] {
        PartsReadIff(parts[1..], ps[1..]);
        assert [ps[0]] + ps[1..] == ps;
      }
    }
  }

  // ---------------------------------------------------------------- what Decode reads and what it drops

  /** Cutting to eight bits: a protocol other than `ip` is read as the number written iff that number is in
      0..255, and refused iff no number is written. */
  lemma ProtoReadIff(s: string)
    requires s != "ip"
    ensures ProtoOf(s).None? <==> Atoi(s).None?
    ensures Atoi(s).Some? ==> (ProtoOf(s) == Some(Atoi(s).value) <==> 0 <= Atoi(s).value <= 255)
  {
    hide Atoi;
    if Atoi(s).Some? {
      var n := Atoi(s).value;
      assert 0 <= n % 256 < 256;
    }
  }

  /** Every number is read as its last eight bits. */
  lemma ProtoWraps(n: nat)
    requires n < 0x8000_0000_0000_0000
    ensures ProtoOf(Itoa(n)) == Some(n % 256)
  {
    ItoaRoundTrip(n);
    assert IsDigit(Itoa(n)[0]);
  }

  /** A negative number is read as its last eight bits too. */
  lemma ProtoWrapsNegative(n: nat)
    requires n <= 0x8000_0000_0000_0000
    ensures ProtoOf("-" + Itoa(n)) == Some(-(n as int) % 256)
  {
    ItoaRoundTrip(n);
    var s := "-" + Itoa(n);
    assert s[0] == '-' && s[1..] == Itoa(n);
  }

  /** The text writes this port, or this range of ports, and nothing else. */
  ghost predicate WritesPort(text: string, p: PortRange) {
    || (ParseUint(text, 0xffff) == Some(p.start) && p.end == p.start)
    || exists a, b :: text == a + ['-'] + b && ParseUint(a, 0xffff) == Some(p.start) && ParseUint(b, 0xffff) == Some(p.end)
  }

  /** Whatever is written is read. */
  lemma WrittenPortIsRead(text: string, p: PortRange)
    requires WritesPort(text, p)
    ensures PortOf(text) == Some(p) && |Split(text, '-')| <= 2
  {
    hide Split, Value;
    if ParseUint(text, 0xffff) == Some(p.start) && p.end == p.start {
      DigitsArePlain(text);
      SplitWhole(text, '-');
    } else {
      var a, b :| text == a + ['-'] + b && ParseUint(a, 0xffff) == Some(p.start) && ParseUint(b, 0xffff) == Some(p.end);
      DigitsArePlain(a);
      DigitsArePlain(b);
      SplitFirst(a, '-', b);
      SplitWhole(b, '-');
    }
  }

  /** What is read is all that is written iff the element has at most one dash. */
  lemma PortReadWholeIff(text: string, p: PortRange)
    requires PortOf(text) == Some(p)
    ensures WritesPort(text, p) <==> |Split(text, '-')| <= 2
  {
    hide Split, Value, ParseUint;
    if WritesPort(text, p) {
      WrittenPortIsRead(text, p);
    }
    var parts := Split(text, '-');
    if |parts| == 2 {
      JoinUndoesSplit(text, '-');
      assert parts[1..] == [parts[1]];
      assert text == parts[0] + ['-'] + parts[1];
    }
  }

  /** What follows a second dash is never looked at. */
  lemma ExtraDashesIgnored(a: string, b: string, rest: string)
    requires '-' !in a && '-' !in b
    ensures PortOf(a + ['-'] + (b + ['-'] + rest)) == PortOf(a + ['-'] + b)
  {
    hide Split, ParseUint;
    SplitFirst(a, '-', b + ['-'] + rest);
    SplitFirst(b, '-', rest);
    SplitFirst(a, '-', b);
    SplitWhole(b, '-');
  }

  /** How many fields come before the field of the destination ports. */
  function DstPortsAt(p: seq<string>): nat
    requires |p| >= 6
  {
    if PortsOf(p[5]).Some? then 8 else 7
  }

  /** Fields behind the one of the destination ports are never looked at. */
  lemma TrailingFieldsIgnored(net: Net, p: seq<string>, extra: seq<string>)
    requires |p| >= 6 && |p| > DstPortsAt(p)
    ensures RuleOfParts(net, p + extra) == RuleOfParts(net, p)
  {
    hide PortsOf, ParseAddr, ProtoOf;
    var q := p + extra;
    assert forall i :: 0 <= i < |p| ==> q[i] == p[i];
  }

  lemma PortsAreSome(text: string)
    requires PortsOf(text).Some?
    ensures PortsOf(text).value != []
  {
  }

  /** The field of the destination ports is dropped, and the rule accepted as if it were not there, iff it
      does not parse. */
  lemma DstPortsDroppedIff(net: Net, p: seq<string>)
    requires |p| >= 6 && |p| > DstPortsAt(p) && RuleOfParts(net, p).Some?
    ensures var k := DstPortsAt(p);
            && RuleOfParts(net, p[..k]).Some?
            && (RuleOfParts(net, p) == RuleOfParts(net, p[..k]) <==> PortsOf(p[k]).None?)
            && (PortsOf(p[k]).Some? ==> RuleOfParts(net, p).value == RuleOfParts(net, p[..k]).value.(dstPorts := PortsOf(p[k]).value))
  {
    var k := DstPortsAt(p);
    if PortsOf(p[k]).Some? {
      PortsAreSome(p[k]);
    }
    hide PortsOf, ParseAddr, ProtoOf;
    var q := p[..k];
    assert forall i :: 0 <= i < k ==> q[i] == p[i];
  }

  /** Inputs for these: protocol 256 is read as 0. */
  lemma Proto256()
    ensures ProtoOf("256") == Some(0)
  {
    ProtoWraps(256);
    assert Itoa(2) == "2" && Itoa(25) == "25" && Itoa(256) == "256";
  }

  /** `1-2-3` is read as 1-2. */
  lemma TwoDashes()
    ensures PortOf("1-2-3") == Some(PortRange(1, 2))
  {
    hide PortOf, Split, Value;
    OneDigit('1');
    OneDigit('2');
    ExtraDashesIgnored("1", "2", "3");
    assert WritesPort("1" + ['-'] + "2", PortRange(1, 2));
    WrittenPortIsRead("1" + ['-'] + "2", PortRange(1, 2));
    assert "1" + ['-'] + ("2" + ['-'] + "3") == "1-2-3";
  }

  /** A last field `x` is dropped. */
  lemma BadPortsDropped(net: Net)
    requires Lawful(net)
    ensures RuleOf(net, "permit out ip from any to any x") ==
            Some(Rule("permit", "out", PROTOCOL_ANY, "any", [], "any", []))
  {
    hide ProtoOf, PortsOf, ParseAddr, Lower, Fields, Lawful;
    var p := ["permit", "out", "ip", "from", "any", "to", "any", "x"];
    PlainWords();
    PlainText(net, p);
    JoinedText();
    ToIsNoPort();
    XIsNoPort();
    AnyIsRead(net);
    assert PortsOf(p[5]).None? && PortsOf(p[7]).None?;
    assert ParseAddr(net, p[4]) == Some("any") && ParseAddr(net, p[6]) == Some("any");
  }

  /** Plain tokens joined with blanks are read as these tokens. */
  lemma PlainText(net: Net, p: seq<string>)
    requires Lawful(net) && forall i :: 0 <= i < |p| ==> PlainToken(p[i])
    ensures Fields(Lower(net, Join(p, " "))) == p
  {
    hide Lower, Fields, Join, Lawful;
    forall i | 0 <= i < |p| ensures Lower(net, p[i]) == p[i] && IsToken(p[i]) {
      PlainIsLower(net, p[i]);
    }
    LowerJoin(net, p);
    assert LowerAll(net, p) == p;
    FieldsUndoJoin(p);
  }

  lemma JoinedText()
    ensures Join(["permit", "out", "ip", "from", "any", "to", "any", "x"], " ") == "permit out ip from any to any x"
  {
    hide Join;
    JoinedOut();
    var rest := ["out", "ip", "from", "any", "to", "any", "x"];
    JoinTwo("permit", rest);
    assert ["permit"] + rest == ["permit", "out", "ip", "from", "any", "to", "any", "x"];
  }

  lemma JoinedOut()
    ensures Join(["out", "ip", "from", "any", "to", "any", "x"], " ") == "out ip from any to any x"
  {
    hide Join;
    JoinedMiddle();
    var rest := ["ip", "from", "any", "to", "any", "x"];
    JoinTwo("out", rest);
    assert ["out"] + rest == ["out", "ip", "from", "any", "to", "any", "x"];
  }

  lemma JoinedMiddle()
    ensures Join(["ip", "from", "any", "to", "any", "x"], " ") == "ip from any to any x"
  {
    hide Join;
    JoinedTail();
    var tail := ["any", "to", "any", "x"];
    JoinTwo("from", tail);
    assert "from" + " " + "any to any x" == "from any to any x";
    JoinTwo("ip", ["from"] + tail);
    assert ["ip"] + (["from"] + tail) == ["ip", "from", "any", "to", "any", "x"];
  }

  lemma JoinedTail()
    ensures Join(["any", "to", "any", "x"], " ") == "any to any x"
  {
    JoinTwo("any", ["x"]);
    JoinTwo("to", ["any"] + ["x"]);
    JoinTwo("any", ["to"] + (["any"] + ["x"]));
    assert ["any"] + (["to"] + (["any"] + ["x"])) == ["any", "to", "any", "x"];
    assert Join(["x"], " ") == "x";
    hide Join;
  }

  lemma JoinTwo(s: string, rest: seq<string>)
    requires rest != []
    ensures Join([s] + rest, " ") == s + " " + Join(rest, " ")
  {
    assert ([s] + rest)[1..] == rest;
  }

  lemma AnyIsRead(net: Net)
    ensures ParseAddr(net, "any") == Some("any") && ProtoOf("ip") == Some(PROTOCOL_ANY)
  {
  }

  lemma OneDigit(c: char)
    requires IsDigit(c)
    ensures ParseUint([c], 0xffff) == Some(c as int - '0' as int)
  {
    var s := [c];
    assert AllDigits(s) && s[..|s| - 1] == [];
    assert Value(s) == 10 * Value([]) + (c as int - '0' as int);
  }

  lemma XIsNoPort()
    ensures PortsOf("x").None?
  {
    SplitWhole("x", ',');
    SplitWhole("x", '-');
    assert !IsDigit("x"[0]);
  }

  // ---------------------------------------------------------------- a rule with two different sides

  const SIDES: seq<string> := ["permit", "out", "17", "from", "assigned", "1-2,7", "to", "any", "3"]

  const SIDES_RULE: Rule :=
    Rule("permit", "out", 17, "assigned", [PortRange(1, 2), PortRange(7, 7)], "any", [PortRange(3, 3)])

  /** These fields, joined with blanks, are decoded to this rule, and the rule is encoded to this text. */
  lemma SidesApart(net: Net)
    requires Lawful(net)
    ensures RuleOf(net, Join(SIDES, " ")) == Some(SIDES_RULE)
    ensures RuleText(net, SIDES_RULE) == Some(Join(SIDES, " "))
  {
    hide ProtoOf, PortsOf, PortsText, ParseAddr, ProtoText, Lower, Fields, Lawful, Join;
    SidesPlain();
    PlainText(net, SIDES);
    SidesRead(net);
    SidesPrinted();
  }

  lemma SidesRead(net: Net)
    ensures RuleOfParts(net, SIDES) == Some(SIDES_RULE)
  {
    hide ProtoOf, PortsOf, ParseAddr;
    Proto17();
    SidesPorts();
    assert ParseAddr(net, "assigned") == Some("assigned") && ParseAddr(net, "any") == Some("any") by {
      AnyIsRead(net);
      AssignedIsRead(net);
    }
    assert PortsOf(SIDES[5]) == Some(SIDES_RULE.srcPorts) && PortsOf(SIDES[8]) == Some(SIDES_RULE.dstPorts);
    assert ProtoOf(SIDES[2]) == Some(17);
    assert ParseAddr(net, SIDES[4]) == Some("assigned") && ParseAddr(net, SIDES[7]) == Some("any");
  }

  lemma AssignedIsRead(net: Net)
    ensures ParseAddr(net, "assigned") == Some("assigned")
  {
  }

  lemma Proto17()
    ensures Itoa(17) == "17" && ProtoOf("17") == Some(17)
  {
    ProtoWraps(17);
    assert Itoa(1) == "1" && Itoa(17) == "17";
  }

  lemma SidesPorts()
    ensures PortsOf("1-2,7") == Some([PortRange(1, 2), PortRange(7, 7)]) && PortsOf("3") == Some([PortRange(3, 3)])
  {
    hide PortOf, PortsOf, Split, Value, Join;
    OneDigit('1');
    OneDigit('2');
    OneDigit('3');
    OneDigit('7');
    assert "1" + ['-'] + "2" == "1-2";
    assert WritesPort("1-2", PortRange(1, 2)) && WritesPort("7", PortRange(7, 7)) && WritesPort("3", PortRange(3, 3));
    WrittenPortIsRead("1-2", PortRange(1, 2));
    WrittenPortIsRead("7", PortRange(7, 7));
    WrittenPortIsRead("3", PortRange(3, 3));
    CommaText();
    PortsReadIff(["1-2", "7"], [PortRange(1, 2), PortRange(7, 7)]);
    PortsReadIff(["3"], [PortRange(3, 3)]);
  }

  lemma CommaText()
    ensures Join(["1-2", "7"], ",") == "1-2,7" && Join(["3"], ",") == "3"
  {
    assert ["1-2", "7"][1..] == ["7"];
    assert "1-2" + "," + "7" == "1-2,7";
  }

  lemma SidesPrinted()
    ensures Tokens(SIDES_RULE) == SIDES
  {
    hide PortsText;
    PrintedPorts();
    Proto17();
  }

  lemma PrintedPorts()
    ensures PortsText([PortRange(1, 2), PortRange(7, 7)]) == "1-2,7" && PortsText([PortRange(3, 3)]) == "3"
  {
    hide Join;
    CommaText();
    assert PortText(PortRange(1, 2)) == "1" + "-" + "2" == "1-2" && PortText(PortRange(7, 7)) == "7";
    assert PortText(PortRange(3, 3)) == "3";
    assert PortTexts([PortRange(1, 2), PortRange(7, 7)]) == ["1-2", "7"];
    assert PortTexts([PortRange(3, 3)]) == ["3"];
  }

  lemma SidesPlain()
    ensures forall i :: 0 <= i < |SIDES| ==> PlainToken(SIDES[i])
  {
  }
}
