/** Service endpoints and their text form, as in `tcp -h 127.0.0.1 -p 12345 -n test_server -t 3000`. */
module Endpoint {
  import opened Sequences
  import opened Bytes
  import opened Text

  datatype Protocol = TCP | UDP | UNIX

  datatype Endpoint = Endpoint(protocol: Protocol, name: string, timeout: nat, host: string, port: nat) {
    /** The fields in the range of their C++ types. */
    predicate InRange() {
      port < 0x1_0000 && timeout < U32
    }
  }

  const DEFAULT_ENDPOINT := Endpoint(TCP, "", 3000, "", 0)

  /** None is the read past the end of the token vector that the parser makes for an option without a value. */
  type Parsed = Option<Endpoint>

  function ProtocolText(p: Protocol): string {
    match p
    case TCP => "tcp"
    case UDP => "udp"
    case UNIX => "unix"
  }

  function ProtocolOf(s: string): Option<Protocol> {
    if s == "tcp" then Some(TCP) else if s == "udp" then Some(UDP) else if s == "unix" then Some(UNIX) else None
  }

  /** One option: `key` with the dashes around it taken off, `raw` its value as split left it. */
  function SetOption(ep: Endpoint, key: string, raw: string): Endpoint {
    var v := Lower(Trimmed(raw, " "));
    if key == "h" then ep.(host := v)
    else if key == "p" then ep.(port := StrTo(v, 0xFFFF))
    else if key == "n" then ep.(name := Trimmed(raw, " "))
    else if key == "t" then ep.(timeout := StrTo(v, U32 - 1))
    else ep
  }

  function KeyOf(token: string): string {
    Lower(Trimmed(Trimmed(token, " "), "-"))
  }

  function SetOptions(ep: Endpoint, tokens: seq<string>): Parsed
    decreases |tokens|
  {
    if tokens == [] then Some(ep)
    else if |tokens| == 1 then None
    else SetOptions(SetOption(ep, KeyOf(tokens[0]), tokens[1]), tokens[2..])
  }

  function FromText(s: string): Parsed {
    var vec := Tokens(s, ' ');
    if vec == [] then Some(DEFAULT_ENDPOINT)
    else
      match ProtocolOf(Lower(Trimmed(vec[0], " ")))
      case None => Some(DEFAULT_ENDPOINT)
      case Some(p) => SetOptions(DEFAULT_ENDPOINT.(protocol := p), vec[1..])
  }

  /** The text behind the protocol, as the options with the blanks around them. */
  function OptionsText(ep: Endpoint): string {
    "-h" + " " + (ep.host + " " + ("-p" + " " + (ToDecimal(ep.port) + " " +
    ("-n" + " " + (ep.name + " " + ("-t" + " " + (ToDecimal(ep.timeout) + " " + "")))))))
  }

  function ToText(ep: Endpoint): string {
    ProtocolText(ep.protocol) + " " + OptionsText(ep)
  }

  /** One option in front of others: it ends up behind what was there, with its blanks around it. */
  lemma OptionMoved(s: string, flag: string, spaced: string, v: string, rest: string)
    requires spaced == " " + flag + " "
    ensures s + " " + (flag + " " + (v + " " + rest)) == (s + spaced + v) + " " + rest
  {
    var tail := v + " " + rest;
    calc {
      s + " " + (flag + " " + tail);
      { PlusAssoc(s, " ", flag + " " + tail); }
      s + (" " + (flag + " " + tail));
      { PlusAssoc(" ", flag + " ", tail); PlusAssoc(" ", flag, " "); }
      s + (spaced + tail);
      { PlusAssoc(s, spaced, tail); }
      (s + spaced) + (v + " " + rest);
      { PlusAssoc(s + spaced, v + " ", rest); PlusAssoc(s + spaced, v, " "); }
      (s + spaced + v) + " " + rest;
    }
  }

  /** The text form spelled out. */
  lemma TextIs(ep: Endpoint)
    ensures ToText(ep) ==
            (match ep.protocol case TCP => "tcp" case UDP => "udp" case UNIX => "unix")
            + " -h " + ep.host + " -p " + ToDecimal(ep.port) + " -n " + ep.name + " -t " + ToDecimal(ep.timeout) + " "
  {
    var s, port, timeout := ProtocolText(ep.protocol), ToDecimal(ep.port), ToDecimal(ep.timeout);
    hide ToDecimal;
    var r4 := "";
    var r3 := "-t" + " " + (timeout + " " + r4);
    var r2 := "-n" + " " + (ep.name + " " + r3);
    var r1 := "-p" + " " + (port + " " + r2);
    var s1 := s + " -h " + ep.host;
    var s2 := s1 + " -p " + port;
    var s3 := s2 + " -n " + ep.name;
    OptionMoved(s, "-h", " -h ", ep.host, r1);
    OptionMoved(s1, "-p", " -p ", port, r2);
    OptionMoved(s2, "-n", " -n ", ep.name, r3);
    OptionMoved(s3, "-t", " -t ", timeout, r4);
    assert ToText(ep) == s + " " + ("-h" + " " + (ep.host + " " + r1));
    assert s3 + " -t " + timeout + " " + r4 == s3 + " -t " + timeout + " ";
  }

  method StringToEndpoint(str: string) returns (r: Parsed)
    ensures r == FromText(str)
  {
    var ep := DEFAULT_ENDPOINT;
    var vec := Split(str, ' ');
    if vec == [] {
      return Some(ep);
    }
    var first := Trim(vec[0], " ");
    var proto := Lower(first);
    if proto == "tcp" {
      ep := ep.(protocol := TCP);
    } else if proto == "udp" {
      ep := ep.(protocol := UDP);
    } else if proto == "unix" {
      ep := ep.(protocol := UNIX);
    } else {
      return Some(ep);
    }
    // The test of the number of tokens: the remainder binds to the 1, so it only catches a lone protocol.
    if |vec| - 1 % 2 == 0 {
      return Some(ep);
    }
    var i := 1;
    while i < |vec|
      invariant 1 <= i <= |vec|
      invariant FromText(str) == SetOptions(ep, vec[i..])
    {
      if i + 1 >= |vec| {
        return None;
      }
      assert vec[i..][2..] == vec[i + 2..];
      var k := Trim(vec[i], " ");
      k := Trim(k, "-");
      k := Lower(k);
      var raw := Trim(vec[i + 1], " ");
      var v := Lower(raw);
      if k == "h" {
        ep := ep.(host := v);
      } else if k == "p" {
        ep := ep.(port := StrTo(v, 0xFFFF));
      } else if k == "n" {
        ep := ep.(name := raw);
      } else if k == "t" {
        ep := ep.(timeout := StrTo(v, U32 - 1));
      }
      i := i + 2;
    }
    r := Some(ep);
  }

  method EndpointToString(ep: Endpoint) returns (rv: string)
    ensures rv == ToText(ep)
  {
    hide ToDecimal;
    rv := ProtocolText(ep.protocol) + " ";
    ghost var s7 := "-t" + " " + (ToDecimal(ep.timeout) + " " + "");
    ghost var s6 := ep.name + " " + s7;
    ghost var s5 := "-n" + " " + s6;
    ghost var s4 := ToDecimal(ep.port) + " " + s5;
    ghost var s3 := "-p" + " " + s4;
    ghost var s2 := ep.host + " " + s3;
    assert ToText(ep) == rv + ("-h" + " " + s2);
    rv := AppendOption(rv, "-h", ep.host, s3);
    assert ToText(ep) == rv + s3;
    rv := AppendOption(rv, "-p", ToDecimal(ep.port), s5);
    rv := AppendOption(rv, "-n", ep.name, s7);
    rv := AppendOption(rv, "-t", ToDecimal(ep.timeout), "");
    assert rv + "" == rv;
  }

  /** Appends one option; `rest` is whatever text is to follow it. */
  method AppendOption(s: string, flag: string, value: string, ghost rest: string) returns (rv: string)
    ensures rv == s + flag + " " + value + " "
    ensures rv + rest == s + (flag + " " + (value + " " + rest))
  {
    rv := s + flag + " " + value + " ";
    calc {
      rv + rest;
      { PlusAssoc(s + flag + " " + value, " ", rest); }
      (s + flag + " ") + value + (" " + rest);
      { PlusAssoc(s + flag + " ", value, " " + rest); PlusAssoc(value, " ", rest); }
      (s + flag + " ") + (value + " " + rest);
      { PlusAssoc(s, flag, " "); }
      s + (flag + " ") + (value + " " + rest);
      { PlusAssoc(s, flag + " ", value + " " + rest); }
      s + (flag + " " + (value + " " + rest));
    }
  }

  // ------------------------------------------------------------------------------------------
  // Round trip

  /** What the text form keeps of a host or a name: at least one character, and no space. */
  predicate IsToken(s: string) {
    IsWord(s, ' ')
  }

  lemma PeelWord(w: string, rest: string)
    requires ' ' !in w
    ensures Tokens(w + " " + rest, ' ') == (if w == "" then [] else [w]) + Tokens(rest, ' ')
  {
    TokensAppend(w, rest, ' ');
    TokensOfWord(w, ' ');
  }

  lemma DecimalIsToken(n: nat)
    ensures IsToken(ToDecimal(n))
  {
  }

  /** The options in the text of an endpoint, whatever its host and name are. */
  function OptionTokens(ep: Endpoint): seq<string> {
    ["-h"] + (Tokens(ep.host, ' ') + (["-p"] + ([ToDecimal(ep.port)] + (["-n"] + (Tokens(ep.name, ' ') +
    (["-t"] + [ToDecimal(ep.timeout)]))))))
  }

  lemma TextTokens(ep: Endpoint)
    ensures Tokens(ToText(ep), ' ') == [ProtocolText(ep.protocol)] + OptionTokens(ep)
  {
    hide Tokens, ToDecimal;
    var s8 := ToDecimal(ep.timeout) + " " + "";
    var s7 := "-t" + " " + s8;
    var s6 := ep.name + " " + s7;
    var s5 := "-n" + " " + s6;
    var s4 := ToDecimal(ep.port) + " " + s5;
    var s3 := "-p" + " " + s4;
    var s2 := ep.host + " " + s3;
    DecimalIsToken(ep.timeout);
    DecimalIsToken(ep.port);
    PeelWord(ToDecimal(ep.timeout), "");
    TokensOfWord("", ' ');
    assert [ToDecimal(ep.timeout)] + [] == [ToDecimal(ep.timeout)];
    PeelWord("-t", s8);
    TokensAppend(ep.name, s7, ' ');
    PeelWord("-n", s6);
    PeelWord(ToDecimal(ep.port), s5);
    PeelWord("-p", s4);
    TokensAppend(ep.host, s3, ' ');
    PeelWord("-h", s2);
    PeelWord(ProtocolText(ep.protocol), "-h" + " " + s2);
  }

  lemma TrimmedToken(s: string)
    requires ' ' !in s
    ensures Trimmed(s, " ") == s
  {
    if s != "" {
      assert s[0] in s && s[|s| - 1] in s;
      assert " "[0] == ' ' && !(" " <= s);
      assert s[|s| - 1..] == [s[|s| - 1]];
    }
  }

  lemma ProtocolRoundTrip(p: Protocol)
    ensures Lower(Trimmed(ProtocolText(p), " ")) == ProtocolText(p) && ProtocolOf(ProtocolText(p)) == Some(p)
  {
    TrimmedToken(ProtocolText(p));
    LowerKeeps(ProtocolText(p));
  }

  lemma DashTrimmed(c: char)
    requires c != '-'
    ensures Trimmed(['-', c], "-") == [c]
  {
    var s: string := ['-', c];
    assert "-" <= s && s[1..] == [c];
    assert !("-" <= [c]) by { assert "-"[0] != [c][0]; }
    assert !EndsWith([c], "-") by { assert [c][0..][0] != "-"[0]; }
    assert TrimmedLeft(s, "-") == TrimmedLeft([c], "-") == [c];
    assert TrimmedRight([c], "-") == [c];
  }

  lemma KeyOfDashed(c: char)
    requires c != ' ' && c != '-' && !IsUpper(c)
    ensures KeyOf(['-', c]) == [c]
  {
    hide Trimmed;
    TrimmedToken(['-', c]);
    DashTrimmed(c);
    LowerKeeps([c]);
  }

  lemma DecimalOption(n: nat, max: nat)
    requires n <= max < U64
    ensures StrTo(Lower(Trimmed(ToDecimal(n), " ")), max) == n
  {
    DecimalIsToken(n);
    TrimmedToken(ToDecimal(n));
    LowerKeeps(ToDecimal(n));
    StrToDecimal(n, max);
  }

  lemma SetNext(ep: Endpoint, key: char, raw: string, rest: seq<string>)
    requires key != ' ' && key != '-' && !IsUpper(key)
    ensures SetOptions(ep, [['-', key]] + ([raw] + rest)) == SetOptions(SetOption(ep, [key], raw), rest)
  {
    hide KeyOf, SetOption;
    KeyOfDashed(key);
    assert ([['-', key]] + ([raw] + rest))[2..] == rest;
  }

  /** With upper-case letters in the host, they come back as lower-case ones; the name keeps its case. */
  lemma TokensReturn(ep: Endpoint)
    requires ep.InRange() && IsToken(ep.host) && IsToken(ep.name)
    ensures FromText(ToText(ep)) == Some(ep.(host := Lower(ep.host)))
  {
    hide SetOptions, Tokens, ToText, Trimmed, Lower, StrTo, ToDecimal;
    TextTokens(ep);
    ProtocolRoundTrip(ep.protocol);
    assert ([ProtocolText(ep.protocol)] + OptionTokens(ep))[1..] == OptionTokens(ep);
    GoodOptions(ep);
  }

  lemma SetGoodOptions(ep: Endpoint, x: Endpoint)
    requires x.InRange() && IsToken(x.host) && IsToken(x.name)
    ensures SetOption(ep, ['h'], x.host) == ep.(host := Lower(x.host))
    ensures SetOption(ep, ['p'], ToDecimal(x.port)) == ep.(port := x.port)
    ensures SetOption(ep, ['n'], x.name) == ep.(name := x.name)
    ensures SetOption(ep, ['t'], ToDecimal(x.timeout)) == ep.(timeout := x.timeout)
  {
    hide Trimmed, Lower, StrTo, ToDecimal;
    TrimmedToken(x.host);
    TrimmedToken(x.name);
    DecimalOption(x.port, 0xFFFF);
    DecimalOption(x.timeout, U32 - 1);
  }

  lemma {:induction false} GoodOptions(ep: Endpoint)
    requires ep.InRange() && IsToken(ep.host) && IsToken(ep.name)
    ensures SetOptions(DEFAULT_ENDPOINT.(protocol := ep.protocol), OptionTokens(ep))
         == Some(ep.(host := Lower(ep.host)))
  {
    var e0 := DEFAULT_ENDPOINT.(protocol := ep.protocol);
    var e1 := e0.(host := Lower(ep.host));
    var e2 := e1.(port := ep.port);
    var e3 := e2.(name := ep.name);
    assert SetOptions(e3.(timeout := ep.timeout), []) == Some(ep.(host := Lower(ep.host)));
    OptionTokensAre(ep);
    hide *;
    var t3 := [['-', 't']] + ([ToDecimal(ep.timeout)] + []);
    var t2 := [['-', 'n']] + ([ep.name] + t3);
    var t1 := [['-', 'p']] + ([ToDecimal(ep.port)] + t2);
    SetGoodOptions(e0, ep);
    SetNext(e0, 'h', ep.host, t1);
    SetGoodOptions(e1, ep);
    SetNext(e1, 'p', ToDecimal(ep.port), t2);
    SetGoodOptions(e2, ep);
    SetNext(e2, 'n', ep.name, t3);
    SetGoodOptions(e3, ep);
    SetNext(e3, 't', ToDecimal(ep.timeout), []);
  }

  lemma OptionTokensAre(ep: Endpoint)
    requires IsToken(ep.host) && IsToken(ep.name)
    ensures OptionTokens(ep) == [['-', 'h']] + ([ep.host] + ([['-', 'p']] + ([ToDecimal(ep.port)] +
            ([['-', 'n']] + ([ep.name] + ([['-', 't']] + ([ToDecimal(ep.timeout)] + [])))))))
  {
    TokensOfWord(ep.host, ' ');
    TokensOfWord(ep.name, ' ');
    hide Tokens, ToDecimal;
    assert [ToDecimal(ep.timeout)] + [] == [ToDecimal(ep.timeout)];
  }

  /** Host and name as the parser can leave them: unset, or a token, the host without upper case. */
  predicate Settable(ep: Endpoint) {
    (ep.host == "" || (IsToken(ep.host) && NoUpper(ep.host))) && (ep.name == "" || IsToken(ep.name))
  }

  lemma {:induction false} OptionsSettable(ep: Endpoint, tokens: seq<string>)
    requires Settable(ep) && forall w | w in tokens :: IsToken(w)
    ensures SetOptions(ep, tokens).Some? <==> |tokens| % 2 == 0
    ensures SetOptions(ep, tokens).Some? ==> Settable(SetOptions(ep, tokens).value)
    ensures SetOptions(ep, tokens).Some? && ep.host != "" ==> SetOptions(ep, tokens).value.host != ""
    decreases |tokens|
  {
    hide SetOption, KeyOf, Settable;
    if |tokens| >= 2 {
      SetOptionSettable(ep, KeyOf(tokens[0]), tokens[1]);
      OptionsSettable(SetOption(ep, KeyOf(tokens[0]), tokens[1]), tokens[2..]);
    }
  }

  lemma SetOptionSettable(ep: Endpoint, key: string, raw: string)
    requires Settable(ep) && IsToken(raw)
    ensures Settable(SetOption(ep, key, raw))
    ensures ep.host != "" || key == "h" ==> SetOption(ep, key, raw).host != ""
  {
    TrimmedToken(raw);
    hide Trimmed, Lower, StrTo;
    LowerKeepsWord(raw);
  }

  lemma LowerKeepsWord(w: string)
    requires IsToken(w)
    ensures IsToken(Lower(w))
  {
    forall i | 0 <= i < |w|
      ensures Lower(w)[i] != ' '
    {
      assert w[i] in w;
    }
  }

  lemma OptionTokensAreTokens(ep: Endpoint)
    ensures forall w | w in OptionTokens(ep) :: IsToken(w)
  {
    TokensAreWords(ep.host, ' ');
    TokensAreWords(ep.name, ' ');
    DecimalIsToken(ep.port);
    DecimalIsToken(ep.timeout);
  }

  lemma ParsedIsGood(ep: Endpoint)
    requires FromText(ToText(ep)) == Some(ep)
    ensures IsToken(ep.host) && NoUpper(ep.host) && IsToken(ep.name)
  {
    hide SetOptions, Tokens, ToText, Trimmed, Lower, ToDecimal;
    var e0, tokens := DEFAULT_ENDPOINT.(protocol := ep.protocol), OptionTokens(ep);
    TextTokens(ep);
    ProtocolRoundTrip(ep.protocol);
    assert ([ProtocolText(ep.protocol)] + tokens)[1..] == tokens;
    OptionTokensAreTokens(ep);
    OptionsSettable(e0, tokens);
    HostIsSet(ep, e0);
    TokensOfWord(ep.host, ' ');
    TokensOfWord(ep.name, ' ');
    assert |tokens| == 6 + |Tokens(ep.host, ' ')| + |Tokens(ep.name, ' ')|;
  }

  /** `-h` is always followed by some token, so the parsed host is never empty. */
  lemma {:induction false} HostIsSet(ep: Endpoint, e0: Endpoint)
    requires Settable(e0) && SetOptions(e0, OptionTokens(ep)) == Some(ep)
    ensures ep.host != ""
  {
    var tokens := OptionTokens(ep);
    hide Tokens, ToDecimal, SetOption, SetOptions, Settable, IsWord;
    var raw, rest := tokens[1], tokens[2..];
    assert tokens == [['-', 'h']] + ([raw] + rest);
    OptionTokensAreTokens(ep);
    SetNext(e0, 'h', raw, rest);
    SetOptionSettable(e0, "h", raw);
    assert forall w | w in rest :: w in tokens;
    OptionsSettable(SetOption(e0, "h", raw), rest);
  }

  /**
   StringToEndpoint undoes EndpointToString exactly for the endpoints whose host and name are non-empty and
   free of spaces and whose host has no upper-case letter.
   */
  lemma RoundTripIff(ep: Endpoint)
    requires ep.InRange()
    ensures FromText(ToText(ep)) == Some(ep) <==> IsToken(ep.host) && NoUpper(ep.host) && IsToken(ep.name)
  {
    if FromText(ToText(ep)) == Some(ep) {
      ParsedIsGood(ep);
    } else if IsToken(ep.host) && NoUpper(ep.host) && IsToken(ep.name) {
      TokensReturn(ep);
      LowerKeeps(ep.host);
    }
  }

  /** The protocol is taken in any case, and the rest of the text is read the same. */
  lemma ProtocolInAnyCase(first: string, rest: string)
    requires IsToken(first)
    ensures FromText(first + " " + rest) == FromText(Lower(first) + " " + rest)
  {
    hide Tokens, SetOptions, Trimmed, Lower;
    LowerKeepsWord(first);
    PeelWord(first, rest);
    PeelWord(Lower(first), rest);
    TrimmedToken(first);
    TrimmedToken(Lower(first));
    LowerKeeps(Lower(first));
    assert ([first] + Tokens(rest, ' '))[1..] == ([Lower(first)] + Tokens(rest, ' '))[1..];
  }

  /** No text, or a first word that is no protocol in any case: the default endpoint. */
  lemma DefaultStands(first: string, rest: string)
    requires IsToken(first) && Lower(first) != "tcp" && Lower(first) != "udp" && Lower(first) != "unix"
    ensures FromText("") == FromText(first + " " + rest) == Some(Endpoint(TCP, "", 3000, "", 0))
  {
    hide Tokens, SetOptions, Trimmed, Lower;
    TokensOfWord("", ' ');
    PeelWord(first, rest);
    TrimmedToken(first);
  }

  /** A protocol alone leaves the rest at the defaults. */
  lemma ProtocolAlone(p: Protocol)
    ensures FromText(ProtocolText(p)) == Some(Endpoint(p, "", 3000, "", 0))
  {
    hide Tokens, Trimmed, Lower;
    TokensOfWord(ProtocolText(p), ' ');
    ProtocolRoundTrip(p);
  }

  lemma {:induction false} OptionsAppended(ep: Endpoint, tokens: seq<string>, key: string, raw: string)
    requires SetOptions(ep, tokens).Some?
    ensures SetOptions(ep, tokens + [key, raw]) == Some(SetOption(SetOptions(ep, tokens).value, KeyOf(key), raw))
    decreases |tokens|
  {
    hide SetOption, KeyOf;
    var all := tokens + [key, raw];
    if tokens == [] {
      assert all == [key, raw] && all[2..] == [];
    } else {
      assert all[0] == tokens[0] && all[1] == tokens[1] && all[2..] == tokens[2..] + [key, raw];
      OptionsAppended(SetOption(ep, KeyOf(tokens[0]), tokens[1]), tokens[2..], key, raw);
    }
  }

  /**
   The last option decides: it sets its own field, whatever came before, and nothing else. Keys are taken in either
   case, the values of all but the name are lowered, and an option with another letter is ignored.
   */
  lemma LastOptionWins(ep: Endpoint, tokens: seq<string>, c: char, raw: string)
    requires SetOptions(ep, tokens).Some? && c != ' ' && c != '-' && IsToken(raw)
    ensures var e := SetOptions(ep, tokens).value;
            SetOptions(ep, tokens + [['-', c], raw]) == Some(
              if c == 'h' || c == 'H' then e.(host := Lower(raw))
              else if c == 'p' || c == 'P' then e.(port := StrTo(Lower(raw), 65535))
              else if c == 'n' || c == 'N' then e.(name := raw)
              else if c == 't' || c == 'T' then e.(timeout := StrTo(Lower(raw), 4294967295))
              else e)
  {
    OptionsAppended(ep, tokens, ['-', c], raw);
    KeyLowered(c);
    OptionIs(SetOptions(ep, tokens).value, LowerChar(c), raw);
    LowerLetters(c);
    hide *;
  }

  lemma OptionIs(e: Endpoint, c: char, raw: string)
    requires IsToken(raw)
    ensures SetOption(e, [c], raw) ==
            if c == 'h' then e.(host := Lower(raw))
            else if c == 'p' then e.(port := StrTo(Lower(raw), 65535))
            else if c == 'n' then e.(name := raw)
            else if c == 't' then e.(timeout := StrTo(Lower(raw), 4294967295))
            else e
  {
    TrimmedToken(raw);
    hide Trimmed, StrTo, Lower;
    assert [c] == "h" <==> c == 'h';
    assert [c] == "p" <==> c == 'p';
    assert [c] == "n" <==> c == 'n';
    assert [c] == "t" <==> c == 't';
  }

  lemma LowerLetters(c: char)
    ensures LowerChar(c) == 'h' <==> c == 'h' || c == 'H'
    ensures LowerChar(c) == 'p' <==> c == 'p' || c == 'P'
    ensures LowerChar(c) == 'n' <==> c == 'n' || c == 'N'
    ensures LowerChar(c) == 't' <==> c == 't' || c == 'T'
  {
  }

  lemma KeyLowered(c: char)
    requires c != ' ' && c != '-'
    ensures KeyOf(['-', c]) == [LowerChar(c)]
  {
    TrimmedToken(['-', c]);
    DashTrimmed(c);
    hide Trimmed;
    assert |Lower([c])| == 1 && Lower([c])[0] == LowerChar(c);
  }

  /** An endpoint without a name is one that does not come back. */
  lemma EmptyNameIsLost(ep: Endpoint)
    requires ep.InRange() && ep.name == ""
    ensures FromText(ToText(ep)) != Some(ep)
  {
    RoundTripIff(ep);
  }
}
