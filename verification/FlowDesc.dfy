/** Flow descriptions: the IPFilterRule of section 4.3 of RFC 3588, printed by Encode and read by Decode. */
module FlowDescs {
  import opened Options
  import opened Texts

  const PROTOCOL_ANY: int := 0xfc

  type Uint8 = n: int | 0 <= n < 256
  type Uint16 = n: int | 0 <= n < 0x1_0000

  datatype PortRange = PortRange(start: Uint16, end: Uint16)

  datatype Rule = Rule(action: string, dir: string, proto: Uint8,
                       src: string, srcPorts: seq<PortRange>, dst: string, dstPorts: seq<PortRange>)

  // ---------------------------------------------------------------- the address library

  /** net.ParseCIDR and net.ParseIP with their canonical printing, and the lower-case mapping. */
  datatype Net = Net(cidr: string -> Option<string>, ip: string -> Option<string>, lower: char -> char)

  function Lower(net: Net, s: string): (t: string)
    ensures |t| == |s| && forall i :: 0 <= i < |s| ==> t[i] == net.lower(s[i])
  {
    seq(|s|, i requires 0 <= i < |s| => net.lower(s[i]))
  }

  predicate AnyOrAssigned(s: string) { s == "any" || s == "assigned" }

  /** What an accepted address looks like. */
  predicate AddressLike(s: string) {
    IsToken(s) && s[0] != '!' && !AnyOrAssigned(s)
  }

  /** One parser: it accepts only address-like strings, ignores case, and prints a fixed point that is in
      lower case. */
  ghost predicate Canonical(net: Net, parse: string -> Option<string>) {
    && (forall s :: parse(s).Some? ==> AddressLike(s))
    && (forall s :: parse(Lower(net, s)) == parse(s))
    && (forall s :: parse(s).Some? ==> parse(parse(s).value) == parse(s))
    && (forall s :: parse(s).Some? ==> Lower(net, parse(s).value) == parse(s).value)
  }

  ghost predicate Lawful(net: Net) {
    && Canonical(net, net.cidr) && Canonical(net, net.ip)
    && (forall s :: net.ip(s).Some? ==> net.cidr(net.ip(s).value).None?)
    && (forall c :: c < 128 as char ==> net.lower(c) == if 'A' <= c <= 'Z' then (c as int + 32) as char else c)
  }

  /** parseFlowDescAddrs */
  function ParseAddr(net: Net, s: string): Option<string> {
    if s == "" then None
    else if AnyOrAssigned(s) then Some(s)
    else if s[0] == '!' then None
    else if net.cidr(s).Some? then net.cidr(s)
    else net.ip(s)
  }

  /** validAddrsFormat */
  predicate ValidAddr(net: Net, s: string) {
    s != "" && s[0] != '!' && (AnyOrAssigned(s) || net.cidr(s).Some? || net.ip(s).Some?)
  }

  // ---------------------------------------------------------------- ports

  function PortText(p: PortRange): string {
    if p.start != p.end then Itoa(p.start) + "-" + Itoa(p.end) else Itoa(p.start)
  }

  function PortTexts(ps: seq<PortRange>): (ts: seq<string>)
    ensures |ts| == |ps| && forall i :: 0 <= i < |ps| ==> ts[i] == PortText(ps[i])
  {
    seq(|ps|, i requires 0 <= i < |ps| => PortText(ps[i]))
  }

  function PortsText(ps: seq<PortRange>): string {
    Join(PortTexts(ps), ",")
  }

  /** One element of a port list. Of a text with several dashes only the first two parts are read. */
  function PortOf(text: string): Option<PortRange> {
    var parts := Split(text, '-');
    if |parts| == 1 then
      match ParseUint(text, 0xffff)
      case None => None
      case Some(p) => Some(PortRange(p, p))
    else
      match (ParseUint(parts[0], 0xffff), ParseUint(parts[1], 0xffff))
      case (Some(p), Some(q)) => Some(PortRange(p, q))
      case _ => None
  }

  function PortsOfParts(parts: seq<string>): Option<seq<PortRange>> {
    if parts == [] then Some([])
    else match (PortOf(parts[0]), PortsOfParts(parts[1..]))
      case (Some(p), Some(rest)) => Some([p] + rest)
      case _ => None
  }

  function PortsOf(text: string): Option<seq<PortRange>> {
    PortsOfParts(Split(text, ','))
  }

  /** The loop that prints a port list. */
  method PortRangesToString(ps: seq<PortRange>) returns (ports: string)
    ensures ports == PortsText(ps)
  {
    hide PortText, Join;
    ports := "";
    var lastPortIdx := |ps| - 1;
    ghost var texts := PortTexts(ps);
    JoinEnds(texts);
    for i := 0 to |ps|
      invariant i < |ps| ==> ports + Join(texts[i..], ",") == PortsText(ps)
      invariant i == |ps| ==> ports == PortsText(ps)
    {
      JoinFrom(texts, i, ports);
      ports := ports + PortText(ps[i]);
      if i != lastPortIdx {
        ports := ports + ",";
      }
    }
  }

  lemma JoinEnds(texts: seq<string>)
    ensures "" + Join(texts[0..], ",") == Join(texts, ",")
    ensures texts == [] ==> Join(texts, ",") == ""
  {
    assert texts[0..] == texts;
  }

  lemma JoinFrom(texts: seq<string>, i: nat, front: string)
    requires i < |texts|
    ensures front + Join(texts[i..], ",") ==
            if i + 1 == |texts| then front + texts[i] else front + texts[i] + "," + Join(texts[i + 1..], ",")
  {
    var rest := texts[i..];
    assert rest[0] == texts[i] && rest[1..] == texts[i + 1..];
    if i + 1 < |texts| {
      assert front + (rest[0] + "," + Join(rest[1..], ",")) == front + rest[0] + "," + Join(rest[1..], ",");
    }
  }

  /** The loop that reads a port list, stopping at the first bad element. */
  method ParsePorts(text: string) returns (ports: Option<seq<PortRange>>)
    ensures ports == PortsOf(text)
  {
    var ranges := Split(text, ',');
    var ps: seq<PortRange> := [];
    assert ranges[0..] == ranges;
    PrefixedEnds([], PortsOf(text));
    for i := 0 to |ranges|
      invariant PortsOf(text) == Prefixed(ps, PortsOfParts(ranges[i..]))
    {
      assert ranges[i..][0] == ranges[i] && ranges[i..][1..] == ranges[i + 1..];
      var p := PortOf(ranges[i]);
      if p.None? {
        return None;
      }
      PrefixedSnoc(ps, p.value, PortsOfParts(ranges[i + 1..]));
      ps := ps + [p.value];
    }
    assert ranges[|ranges|..] == [];
    PrefixedEnds(ps, Some([]));
    return Some(ps);
  }

  ghost function Prefixed(ps: seq<PortRange>, rest: Option<seq<PortRange>>): Option<seq<PortRange>> {
    match rest case None => None case Some(qs) => Some(ps + qs)
  }

  lemma PrefixedEnds(ps: seq<PortRange>, rest: Option<seq<PortRange>>)
    ensures Prefixed([], rest) == rest
    ensures Prefixed(ps, Some([])) == Some(ps)
  {
    if rest.Some? {
      assert [] + rest.value == rest.value;
    }
    assert ps + [] == ps;
  }

  lemma PrefixedSnoc(ps: seq<PortRange>, p: PortRange, rest: Option<seq<PortRange>>)
    ensures Prefixed(ps + [p], rest) == Prefixed(ps, Prefixed([p], rest))
  {
    if rest.Some? {
      assert ps + [p] + rest.value == ps + ([p] + rest.value);
    }
  }

  /** Characters that no step of encoding or decoding changes or breaks at. */
  predicate Plain(c: char) { 0x21 <= c as int < 0x7f && !('A' <= c <= 'Z') }

  predicate PlainToken(s: string) {
    s != [] && forall i :: 0 <= i < |s| ==> Plain(s[i])
  }

  lemma DigitsArePlain(s: string)
    requires s != [] && AllDigits(s)
    ensures PlainToken(s) && ',' !in s && '-' !in s && IsDigit(s[0])
  {
  }

  lemma PlainDash(a: string, b: string)
    requires PlainToken(a) && PlainToken(b) && ',' !in a && ',' !in b
    ensures PlainToken(a + ['-'] + b) && ',' !in a + ['-'] + b
  {
  }

  lemma PortRoundTrip(p: PortRange)
    ensures PortOf(PortText(p)) == Some(p)
    ensures PlainToken(PortText(p)) && ',' !in PortText(p) && IsDigit(PortText(p)[0])
  {
    hide Itoa, Value, Split;
    var a, b := Itoa(p.start), Itoa(p.end);
    ItoaRoundTrip(p.start);
    ItoaRoundTrip(p.end);
    DigitsArePlain(a);
    DigitsArePlain(b);
    if p.start == p.end {
      SplitWhole(a, '-');
    } else {
      assert PortText(p) == a + ['-'] + b;
      PlainDash(a, b);
      SplitFirst(a, '-', b);
      SplitWhole(b, '-');
    }
  }

  lemma {:induction false} PortPartsRoundTrip(ps: seq<PortRange>)
    ensures PortsOfParts(PortTexts(ps)) == Some(ps)
  {
    hide PortText, PortOf;
    if ps != [] {
      PortRoundTrip(ps[0]);
      PortPartsRoundTrip(ps[1..]);
      assert PortTexts(ps)[1..] == PortTexts(ps[1..]);
      assert [ps[0]] + ps[1..] == ps;
    }
  }

  lemma {:induction false} JoinPlain(parts: seq<string>)
    requires parts != [] && PlainToken(parts[0]) && forall i :: 0 <= i < |parts| ==> PlainToken(parts[i])
    ensures PlainToken(Join(parts, ","))
    ensures Join(parts, ",")[0] == parts[0][0]
  {
    if |parts| > 1 {
      JoinPlain(parts[1..]);
    }
  }

  /** Reading a printed port list gives it back. */
  lemma PortsRoundTrip(ps: seq<PortRange>)
    requires ps != []
    ensures PortsOf(PortsText(ps)) == Some(ps)
    ensures PlainToken(PortsText(ps)) && IsDigit(PortsText(ps)[0])
  {
    forall i | 0 <= i < |ps| ensures PlainToken(PortTexts(ps)[i]) && ',' !in PortTexts(ps)[i] {
      PortRoundTrip(ps[i]);
    }
    PortRoundTrip(ps[0]);
    JoinPlain(PortTexts(ps));
    SplitUndoesJoin(PortTexts(ps), ',');
    PortPartsRoundTrip(ps);
  }

  // ---------------------------------------------------------------- rules

  function ProtoText(proto: Uint8): string {
    if proto == PROTOCOL_ANY then "ip" else Itoa(proto)
  }

  /** parseProto: a number is cut to eight bits. */
  function ProtoOf(s: string): Option<Uint8> {
    if s == "ip" then Some(PROTOCOL_ANY)
    else match Atoi(s)
      case None => None
      case Some(n) => Some(n % 256)
  }

  function AddrText(s: string): string { if s == "" then "any" else s }

  function PortTokens(ps: seq<PortRange>): seq<string> { if ps == [] then [] else [PortsText(ps)] }

  function Tokens(r: Rule): seq<string> {
    [r.action, r.dir, ProtoText(r.proto), "from", AddrText(r.src)] + PortTokens(r.srcPorts) +
    ["to", AddrText(r.dst)] + PortTokens(r.dstPorts)
  }

  predicate Encodable(net: Net, r: Rule) {
    && (r.action == "permit" || r.action == "deny") && r.dir == "out"
    && (r.src == "" || ValidAddr(net, r.src)) && (r.dst == "" || ValidAddr(net, r.dst))
  }

  /** Encode as a function. */
  function RuleText(net: Net, r: Rule): Option<string> {
    if Encodable(net, r) then Some(Join(Tokens(r), " ")) else None
  }

  /** Decode, once the text has been split into fields. */
  function RuleOfParts(net: Net, p: seq<string>): Option<Rule> {
    if |p| < 6 || (p[0] != "permit" && p[0] != "deny") || p[1] != "out" || ProtoOf(p[2]).None?
       || p[3] != "from" || ParseAddr(net, p[4]).None? then None
    else
      var sp := PortsOf(p[5]);
      var k := if sp.Some? then 6 else 5;
      if |p| <= k + 1 || p[k] != "to" || ParseAddr(net, p[k + 1]).None? then None
      else
        var dp := if |p| <= k + 2 then None else PortsOf(p[k + 2]);
        Some(Rule(p[0], p[1], ProtoOf(p[2]).value,
                  ParseAddr(net, p[4]).value, OrEmpty(sp), ParseAddr(net, p[k + 1]).value, OrEmpty(dp)))
  }

  function OrEmpty(ps: Option<seq<PortRange>>): seq<PortRange> {
    match ps case None => [] case Some(s) => s
  }

  function RuleOf(net: Net, text: string): Option<Rule> {
    RuleOfParts(net, Fields(Lower(net, text)))
  }

  /** The rule with its addresses in canonical form. */
  function Canon(net: Net, r: Rule): Rule {
    r.(src := CanonAddr(net, r.src), dst := CanonAddr(net, r.dst))
  }

  function CanonAddr(net: Net, s: string): string {
    match ParseAddr(net, AddrText(s)) case None => s case Some(t) => t
  }

  // ---------------------------------------------------------------- the program

  class IPFilterRule {
    var action: string
    var dir: string
    var proto: Uint8
    var src: string
    var srcPorts: seq<PortRange>
    var dst: string
    var dstPorts: seq<PortRange>

    constructor ()
      ensures Value() == Rule("permit", "out", PROTOCOL_ANY, "", [], "", [])
    {
      action, dir, proto := "permit", "out", PROTOCOL_ANY;
      src, srcPorts, dst, dstPorts := "", [], "", [];
    }

    ghost function Value(): Rule
      reads this
    {
      Rule(action, dir, proto, src, srcPorts, dst, dstPorts)
    }

    method SwapSrcAndDst()
      modifies this
      ensures Value() == Swapped(old(Value()))
      ensures src == old(dst) && dst == old(src) && srcPorts == old(dstPorts) && dstPorts == old(srcPorts)
      ensures action == old(action) && dir == old(dir) && proto == old(proto)
    {
      src, dst := dst, src;
      srcPorts, dstPorts := dstPorts, srcPorts;
    }
  }

  function Swapped(r: Rule): Rule {
    Rule(r.action, r.dir, r.proto, r.dst, r.dstPorts, r.src, r.srcPorts)
  }

  method Encode(net: Net, r: IPFilterRule) returns (text: Option<string>)
    ensures text == RuleText(net, r.Value())
  {
    hide PortsText, Join, ProtoText, ValidAddr, AddrText, PortTokens;
    var head := EncodeHead(r);
    if head.None? {
      return None;
    }
    var parts := head.value;
    var side := EncodeSide(net, r.src, r.srcPorts);
    if side.None? {
      return None;
    }
    parts := parts + side.value;
    parts := parts + ["to"];
    side := EncodeSide(net, r.dst, r.dstPorts);
    if side.None? {
      return None;
    }
    parts := parts + side.value;
    assert parts == Tokens(r.Value());
    return Some(Join(parts, " "));
  }

  /** The fields up to `from`. */
  method EncodeHead(r: IPFilterRule) returns (parts: Option<seq<string>>)
    ensures parts == if (r.action == "permit" || r.action == "deny") && r.dir == "out"
                     then Some([r.action, r.dir, ProtoText(r.proto), "from"]) else None
  {
    hide Itoa;
    var out: seq<string> := [];
    if r.action == "permit" {
      out := out + ["permit"];
    } else if r.action == "deny" {
      out := out + ["deny"];
    } else {
      return None;
    }
    if r.dir == "out" {
      out := out + ["out"];
    } else {
      return None;
    }
    if r.proto == PROTOCOL_ANY {
      out := out + ["ip"];
    } else {
      out := out + [Itoa(r.proto)];
    }
    out := out + ["from"];
    assert out == [r.action, r.dir, ProtoText(r.proto), "from"];
    return Some(out);
  }

  /** The address and port fields of one side of the rule. */
  method EncodeSide(net: Net, addr: string, ports: seq<PortRange>) returns (parts: Option<seq<string>>)
    ensures parts == if addr == "" || ValidAddr(net, addr) then Some([AddrText(addr)] + PortTokens(ports)) else None
  {
    var out: seq<string> := [];
    if addr != "" {
      if ValidAddr(net, addr) {
        out := out + [addr];
      } else {
        return None;
      }
    } else {
      out := out + ["any"];
    }
    assert out == [AddrText(addr)];
    var text := PortRangesToString(ports);
    PortsTextEmpty(ports);
    if text != "" {
      out := out + [text];
    }
    assert out == [AddrText(addr)] + PortTokens(ports);
    return Some(out);
  }

  lemma PortsTextEmpty(ps: seq<PortRange>)
    ensures PortsText(ps) == "" <==> ps == []
  {
    if ps != [] {
      PortsRoundTrip(ps);
    }
  }

  method Decode(net: Net, text: string) returns (r: Option<Rule>)
    ensures r == RuleOf(net, text)
  {
    hide PortsOf, ParseAddr, ProtoOf, Fields;
    var parts := Fields(Lower(net, text));
    var ptr := 0;
    if ptr >= |parts| { return None; }
    var action := parts[ptr];
    if action != "permit" && action != "deny" { return None; }
    ptr := ptr + 1;
    if ptr >= |parts| { return None; }
    var dir := parts[ptr];
    if dir != "out" { return None; }
    ptr := ptr + 1;
    if ptr >= |parts| { return None; }
    var proto := ProtoOf(parts[ptr]);
    if proto.None? { return None; }
    ptr := ptr + 1;
    if ptr >= |parts| { return None; }
    if parts[ptr] != "from" { return None; }
    ptr := ptr + 1;
    if ptr >= |parts| { return None; }
    var src := ParseAddr(net, parts[ptr]);
    if src.None? { return None; }
    ptr := ptr + 1;
    if ptr >= |parts| { return None; }
    var srcPorts: seq<PortRange> := [];
    var sp := ParsePorts(parts[ptr]);
    if sp.Some? {
      srcPorts := sp.value;
      ptr := ptr + 1;
    }
    if ptr >= |parts| { return None; }
    if parts[ptr] != "to" { return None; }
    ptr := ptr + 1;
    if ptr >= |parts| { return None; }
    var dst := ParseAddr(net, parts[ptr]);
    if dst.None? { return None; }
    ptr := ptr + 1;
    var dstPorts: seq<PortRange> := [];
    if |parts| > ptr {
      var dp := ParsePorts(parts[ptr]);
      if dp.Some? {
        dstPorts := dp.value;
      }
    }
    return Some(Rule(action, dir, proto.value, src.value, srcPorts, dst.value, dstPorts));
  }

  // ---------------------------------------------------------------- round trips

  lemma PlainIsLower(net: Net, s: string)
    requires Lawful(net) && PlainToken(s)
    ensures Lower(net, s) == s && IsToken(s)
  {
    assert forall i :: 0 <= i < |s| ==> net.lower(s[i]) == s[i];
  }

  lemma ProtoRoundTrip(proto: Uint8)
    ensures ProtoOf(ProtoText(proto)) == Some(proto) && PlainToken(ProtoText(proto))
  {
    ItoaRoundTrip(proto);
    if proto != PROTOCOL_ANY {
      assert IsDigit(Itoa(proto)[0]);
    }
  }

  function LowerAll(net: Net, tokens: seq<string>): (ts: seq<string>)
    ensures |ts| == |tokens| && forall i :: 0 <= i < |ts| ==> ts[i] == Lower(net, tokens[i])
  {
    seq(|tokens|, i requires 0 <= i < |tokens| => Lower(net, tokens[i]))
  }

  lemma LowerConcat(net: Net, a: string, b: string)
    ensures Lower(net, a + b) == Lower(net, a) + Lower(net, b)
  {
  }

  lemma {:induction false} LowerJoin(net: Net, tokens: seq<string>)
    requires Lawful(net)
    ensures Lower(net, Join(tokens, " ")) == Join(LowerAll(net, tokens), " ")
  {
    if |tokens| > 1 {
      var rest := tokens[1..];
      LowerJoin(net, rest);
      assert LowerAll(net, tokens)[1..] == LowerAll(net, rest);
      LowerConcat(net, tokens[0] + " ", Join(rest, " "));
      LowerConcat(net, tokens[0], " ");
      assert Lower(net, " ") == " ";
    }
  }

  /** The rule whose addresses are printed and put in lower case. */
  function Lowered(net: Net, r: Rule): Rule {
    r.(src := Lower(net, AddrText(r.src)), dst := Lower(net, AddrText(r.dst)))
  }

  lemma AddrLowers(net: Net, s: string)
    requires Lawful(net) && (s == "" || ValidAddr(net, s))
    ensures var t := Lower(net, AddrText(s));
            && IsToken(t) && ParseAddr(net, t) == Some(CanonAddr(net, s))
  {
    PlainIsLower(net, "any");
    PlainIsLower(net, "assigned");
    var a := AddrText(s);
    if !AnyOrAssigned(a) {
      var t := Lower(net, a);
      assert net.cidr(t) == net.cidr(a) && net.ip(t) == net.ip(a);
      assert AddressLike(t);
    }
  }

  lemma PlainWords()
    ensures PlainToken("permit") && PlainToken("deny") && PlainToken("out") && PlainToken("from") && PlainToken("to")
    ensures PlainToken("ip") && PlainToken("any") && PlainToken("x")
  {
  }

  /** The fields that do not hold addresses or ports are the same in lower case. */
  lemma KeywordsLower(net: Net, r: Rule)
    requires Lawful(net) && Encodable(net, r)
    ensures forall s :: s in [r.action, r.dir, ProtoText(r.proto), "from", "to"] ==> Lower(net, s) == s && IsToken(s)
  {
    hide Lower, Lawful, ProtoText, ValidAddr;
    PlainWords();
    PlainIsLower(net, r.action);
    PlainIsLower(net, "out");
    PlainIsLower(net, "from");
    PlainIsLower(net, "to");
    ProtoRoundTrip(r.proto);
    PlainIsLower(net, ProtoText(r.proto));
  }

  lemma AddrTextOfLower(net: Net, s: string)
    ensures AddrText(Lower(net, AddrText(s))) == Lower(net, AddrText(s))
  {
  }

  /** Lower case changes only the addresses. */
  lemma LoweredTokens(net: Net, r: Rule)
    requires Lawful(net) && Encodable(net, r)
    ensures LowerAll(net, Tokens(r)) == Tokens(Lowered(net, r))
  {
    hide Lower, PortsText, ProtoText, Lawful, IsToken, Encodable, AddrText;
    KeywordsLower(net, r);
    PortTokensLower(net, r.srcPorts);
    PortTokensLower(net, r.dstPorts);
    AddrTextOfLower(net, r.src);
    AddrTextOfLower(net, r.dst);
    var low := Lowered(net, r);
    var x, y := [r.action, r.dir, ProtoText(r.proto), "from", AddrText(r.src)], ["to", AddrText(r.dst)];
    LowerAllConcat(net, x, PortTokens(r.srcPorts));
    LowerAllConcat(net, x + PortTokens(r.srcPorts), y);
    LowerAllConcat(net, x + PortTokens(r.srcPorts) + y, PortTokens(r.dstPorts));
    assert LowerAll(net, x) == [r.action, r.dir, ProtoText(r.proto), "from", low.src];
    assert LowerAll(net, y) == ["to", low.dst];
  }

  /** Every field of the printed rule is a token, also in lower case. */
  lemma FieldsAreTokens(net: Net, r: Rule)
    requires Lawful(net) && Encodable(net, r)
    ensures forall i :: 0 <= i < |Tokens(Lowered(net, r))| ==> IsToken(Tokens(Lowered(net, r))[i])
  {
    hide Lower, PortsText, ProtoText, Lawful, IsToken, ValidAddr, AddrText, CanonAddr, ParseAddr;
    KeywordsLower(net, r);
    PortTokensLower(net, r.srcPorts);
    PortTokensLower(net, r.dstPorts);
    AddrTextOfLower(net, r.src);
    AddrTextOfLower(net, r.dst);
    AddrLowers(net, r.src);
    AddrLowers(net, r.dst);
    var low := Lowered(net, r);
    forall s | s in Tokens(low) ensures IsToken(s) {
      assert s in [r.action, r.dir, ProtoText(r.proto), "from", "to"] || s == low.src || s == low.dst
          || s in PortTokens(r.srcPorts) || s in PortTokens(r.dstPorts);
    }
  }

  lemma LowerAllConcat(net: Net, a: seq<string>, b: seq<string>)
    ensures LowerAll(net, a + b) == LowerAll(net, a) + LowerAll(net, b)
  {
  }

  lemma PortTokensLower(net: Net, ps: seq<PortRange>)
    requires Lawful(net)
    ensures LowerAll(net, PortTokens(ps)) == PortTokens(ps)
    ensures ps != [] ==> IsToken(PortsText(ps))
  {
    if ps != [] {
      PortsRoundTrip(ps);
      PlainIsLower(net, PortsText(ps));
    }
  }

  lemma ToIsNoPort()
    ensures PortsOf("to").None?
  {
    SplitWhole("to", ',');
    SplitWhole("to", '-');
    assert !IsDigit("to"[0]);
  }

  /** The fields of a printed rule decode to the rule with canonical addresses. */
  lemma TokensDecode(net: Net, r: Rule)
    requires Lawful(net) && Encodable(net, r)
    ensures RuleOfParts(net, Tokens(Lowered(net, r))) == Some(Canon(net, r))
  {
    hide Lower, PortsText, PortsOf, ProtoText, ProtoOf, ParseAddr, CanonAddr, Lawful, ValidAddr, AddrText;
    AddrTextOfLower(net, r.src);
    AddrTextOfLower(net, r.dst);
    AddrLowers(net, r.src);
    AddrLowers(net, r.dst);
    ProtoRoundTrip(r.proto);
    ToIsNoPort();
    if r.srcPorts != [] { PortsRoundTrip(r.srcPorts); }
    if r.dstPorts != [] { PortsRoundTrip(r.dstPorts); }
  }

  /** Decode undoes Encode, for every rule that Encode accepts: the same rule with canonical addresses,
      the empty address read back as `any`. */
  lemma DecodeUndoesEncode(net: Net, r: Rule)
    requires Lawful(net) && RuleText(net, r).Some?
    ensures RuleOf(net, RuleText(net, r).value) == Some(Canon(net, r))
  {
    hide RuleOfParts, Tokens, Canon, Lawful, Fields, Join, Lower, LowerAll;
    var low := Tokens(Lowered(net, r));
    LoweredTokens(net, r);
    FieldsAreTokens(net, r);
    LowerJoin(net, Tokens(r));
    FieldsUndoJoin(low);
    TokensDecode(net, r);
  }

  lemma ParsedAddrIsCanonical(net: Net, s: string)
    requires Lawful(net) && ParseAddr(net, s).Some?
    ensures var t := ParseAddr(net, s).value;
            ValidAddr(net, t) && CanonAddr(net, t) == t
  {
    var t := ParseAddr(net, s).value;
    if !AnyOrAssigned(s) {
      if net.cidr(s).Some? {
        assert net.cidr(t) == Some(t);
      } else {
        assert net.ip(t) == Some(t) && net.cidr(t).None?;
      }
      assert AddressLike(t);
    }
  }

  /** Whatever Decode accepts, Encode accepts, and decoding that again gives the same rule. */
  lemma DecodedRuleIsStable(net: Net, text: string)
    requires Lawful(net) && RuleOf(net, text).Some?
    ensures var r := RuleOf(net, text).value;
            && RuleText(net, r).Some?
            && RuleOf(net, RuleText(net, r).value) == Some(r)
  {
    var parts := Fields(Lower(net, text));
    var r := RuleOf(net, text).value;
    ParsedAddrIsCanonical(net, parts[4]);
    ParsedAddrIsCanonical(net, parts[if PortsOf(parts[5]).Some? then 7 else 6]);
    hide Lawful, ParseAddr, ValidAddr, CanonAddr, Fields, Lower, PortsOf, ProtoOf;
    assert Canon(net, r) == r;
    DecodeUndoesEncode(net, r);
  }

  /** Swapping source and destination commutes with a trip through the text. */
  lemma SwapCommutes(net: Net, r: Rule)
    requires Lawful(net)
    ensures RuleText(net, Swapped(r)).Some? <==> RuleText(net, r).Some?
    ensures RuleText(net, r).Some? ==>
              && RuleOf(net, RuleText(net, r).value).Some?
              && RuleOf(net, RuleText(net, Swapped(r)).value) == Some(Swapped(RuleOf(net, RuleText(net, r).value).value))
    ensures Swapped(Swapped(r)) == r
  {
    hide RuleOf, Lawful, CanonAddr, Tokens, Join, ValidAddr;
    if RuleText(net, r).Some? {
      DecodeUndoesEncode(net, r);
      DecodeUndoesEncode(net, Swapped(r));
    }
  }

  // ---------------------------------------------------------------- a lawful library exists

  function AsciiLower(c: char): char {
    if 'A' <= c <= 'Z' then (c as int + 32) as char else c
  }

  function AsciiLowerAll(s: string): (t: string)
    ensures |t| == |s| && forall i :: 0 <= i < |s| ==> t[i] == AsciiLower(s[i])
  {
    seq(|s|, i requires 0 <= i < |s| => AsciiLower(s[i]))
  }

  predicate AddressChar(c: char) { '0' <= c <= '9' || 'a' <= c <= 'f' || c == ':' || c == '.' || c == '/' }

  /** A stand-in parser: a run of address characters, with a slash or without, printed in lower case. */
  function Accept(slash: bool, s: string): Option<string> {
    var t := AsciiLowerAll(s);
    if t != [] && (forall i :: 0 <= i < |t| ==> AddressChar(t[i])) && ('/' in t <==> slash) then Some(t) else None
  }

  /** The laws that the round trips assume of the address library can be met. */
  lemma LawfulExists()
    ensures exists net: Net :: Lawful(net)
  {
    var net := Net(s => Accept(true, s), s => Accept(false, s), AsciiLower);
    assert Lawful(net) by {
      forall s ensures Lower(net, s) == AsciiLowerAll(s) {}
      CanonicalAccept(net, true);
      CanonicalAccept(net, false);
    }
  }

  lemma CanonicalAccept(net: Net, slash: bool)
    requires forall s :: Lower(net, s) == AsciiLowerAll(s)
    ensures Canonical(net, s => Accept(slash, s))
  {
    forall s: string ensures AsciiLowerAll(AsciiLowerAll(s)) == AsciiLowerAll(s) {}
    assert "any"[1] == 'n' && "assigned"[5] == 'n';
    forall s | Accept(slash, s).Some? ensures AddressLike(s) {
      var t := AsciiLowerAll(s);
      forall i | 0 <= i < |s| ensures !IsSpace(s[i]) && s[i] != '!' && s[i] != 'n' {
        assert AddressChar(t[i]);
      }
    }
  }
}
