/**
 The uploader's conversion of a configuration file: what the tools understand is kept, the rest is
 dropped or refused, and the interface address is taken out.
 */
module ConfigConvert {
  import opened Wrappers

  /** White space as Unicode has it. */
  predicate IsSpace(c: char) {
    var n := c as int;
    9 <= n <= 13 || n == 32 || n == 0x85 || n == 0xa0 || n == 0x1680 || 0x2000 <= n <= 0x200a || n == 0x2028 || n == 0x2029 || n == 0x202f
    || n == 0x205f || n == 0x3000
  }

  function TrimLeft(s: string): string {
    if s != "" && IsSpace(s[0]) then TrimLeft(s[1..]) else s
  }

  function TrimRight(s: string): string {
    if s != "" && IsSpace(s[|s| - 1]) then TrimRight(s[..|s| - 1]) else s
  }

  function TrimSpace(s: string): string { TrimRight(TrimLeft(s)) }

  /** Nothing to trim. */
  ghost predicate Trimmed(s: string) {
    s != "" ==> !IsSpace(s[0]) && !IsSpace(s[|s| - 1])
  }

  lemma {:induction false} TrimRightFacts(s: string)
    ensures TrimRight(s) <= s && (TrimRight(s) != "" ==> !IsSpace(TrimRight(s)[|TrimRight(s)| - 1]))
    decreases |s|
  {
    if s != "" && IsSpace(s[|s| - 1]) {
      TrimRightFacts(s[..|s| - 1]);
    }
  }

  lemma {:induction false} TrimLeftFacts(s: string)
    ensures |TrimLeft(s)| <= |s| && s[|s| - |TrimLeft(s)|..] == TrimLeft(s) && (TrimLeft(s) != "" ==> !IsSpace(TrimLeft(s)[0]))
    decreases |s|
  {
    if s != "" && IsSpace(s[0]) {
      TrimLeftFacts(s[1..]);
    }
  }

  lemma TrimmedResult(s: string)
    ensures Trimmed(TrimSpace(s))
    ensures forall c :: c !in s ==> c !in TrimSpace(s)
  {
    hide IsSpace, TrimLeft, TrimRight;
    var l := TrimLeft(s);
    var r := TrimRight(l);
    TrimLeftFacts(s);
    TrimRightFacts(l);
    PartOf(r, l, 0);
    PartOf(l, s, |s| - |l|);
  }

  lemma PartOf(r: string, s: string, n: nat)
    requires n + |r| <= |s| && s[n..n + |r|] == r
    ensures forall c :: c !in s ==> c !in r
  {
    assert forall i :: 0 <= i < |r| ==> r[i] == s[n..n + |r|][i] == s[n + i];
  }

  lemma TrimNothing(s: string)
    requires Trimmed(s)
    ensures TrimSpace(s) == s
  {
  }

  lemma {:induction false} TrimRightSpace(s: string, c: char)
    requires IsSpace(c)
    ensures TrimRight(s + [c]) == TrimRight(s)
  {
    assert (s + [c])[..|s|] == s;
  }

  /** A space in front is trimmed away. */
  lemma TrimSpaceFront(s: string, c: char)
    requires IsSpace(c)
    ensures TrimSpace([c] + s) == TrimSpace(s)
  {
    assert ([c] + s)[1..] == s;
  }

  /** So is one at the end. */
  lemma {:induction false} TrimSpaceBack(s: string, c: char)
    requires IsSpace(c)
    ensures TrimSpace(s + [c]) == TrimSpace(s)
    decreases |s|
  {
    if s == "" {
      assert s + [c] == [c] + "";
      TrimSpaceFront("", c);
    } else if IsSpace(s[0]) {
      assert (s + [c])[1..] == s[1..] + [c];
      TrimSpaceBack(s[1..], c);
    } else {
      TrimRightSpace(s, c);
    }
  }

  // ---------------------------------------------------------------- lines

  /** The place of the first c, or the length. */
  function IndexOf(s: string, c: char): (i: nat)
    ensures i <= |s| && (i < |s| ==> s[i] == c) && forall j :: 0 <= j < i ==> s[j] != c
    decreases |s|
  {
    if s == "" || s[0] == c then 0 else 1 + IndexOf(s[1..], c)
  }

  /** The lines a scanner gives; a carriage return at the end goes with the white space. */
  function Lines(t: string): seq<string>
    decreases |t|
  {
    var i := IndexOf(t, '\n');
    if t == "" then [] else if i == |t| then [t] else [t[..i]] + Lines(t[i + 1..])
  }

  lemma {:induction false} IndexIs(s: string, c: char, i: nat)
    requires i <= |s| && (i < |s| ==> s[i] == c) && forall j :: 0 <= j < i ==> s[j] != c
    ensures IndexOf(s, c) == i
  {
    if i > 0 {
      assert s[0] != c;
      IndexIs(s[1..], c, i - 1);
    }
  }

  // ---------------------------------------------------------------- what a line is

  const ALLOWED := {"PrivateKey", "ListenPort", "FwMark", "PublicKey", "PresharedKey", "AllowedIPs", "Endpoint", "PersistentKeepalive"}
  const DROPPED := {"DNS", "MTU", "Table", "SaveConfig", "PostUp", "PostDown", "PreUp", "PreDown"}

  /** A line: to be skipped, a section header, an address, a setting to keep, or one to refuse. */
  datatype Class = Skip | Header(line: string) | Address(val: string) | Keep(key: string, val: string) | Refuse

  function Classify(raw: string): Class {
    var line := TrimSpace(raw);
    if line == "" || line[0] == '#' then Skip
    else if line[0] == '[' && line[|line| - 1] == ']' then Header(line)
    else
      var i := IndexOf(line, '=');
      if i == |line| then Refuse
      else
        var key, val := TrimSpace(line[..i]), TrimSpace(line[i + 1..]);
        if key == "Address" then Address(val)
        else if key in DROPPED then Skip
        else if key in ALLOWED then Keep(key, val)
        else Refuse
  }

  /** The lines that are not skipped. */
  function Classes(ls: seq<string>): seq<Class> {
    if ls == [] then [] else (if Classify(ls[0]) == Skip then [] else [Classify(ls[0])]) + Classes(ls[1..])
  }

  function Items(t: string): seq<Class> { Classes(Lines(t)) }

  lemma ClassifyTrims(raw: string, raw': string)
    requires TrimSpace(raw) == TrimSpace(raw')
    ensures Classify(raw) == Classify(raw')
  {
  }

  lemma BlankSkipped()
    ensures Classify("") == Skip
  {
  }

  lemma ClassesFirst(ls: seq<string>)
    requires ls != []
    ensures Classes(ls) == if Classify(ls[0]) == Skip then Classes(ls[1..]) else [Classify(ls[0])] + Classes(ls[1..])
  {
    hide Classify;
  }

  lemma {:induction false} ClassesAppend(a: seq<string>, b: seq<string>)
    ensures Classes(a + b) == Classes(a) + Classes(b)
    decreases |a|
  {
    hide Classify, Classes;
    if a == [] {
      assert a + b == b;
      ClassesNone(a);
    } else {
      var c, x := a + b, Classify(a[0]);
      assert c[0] == a[0] && c[1..] == a[1..] + b;
      ClassesAppend(a[1..], b);
      ClassesFirst(c);
      ClassesFirst(a);
      assert x != Skip ==> [x] + (Classes(a[1..]) + Classes(b)) == ([x] + Classes(a[1..])) + Classes(b);
    }
  }

  /** The first line of a text, and the rest. */
  lemma LinesStep(line: string, rest: string)
    requires '\n' !in line
    ensures Lines(line + ['\n'] + rest) == [line] + Lines(rest)
  {
    var t := line + ['\n'] + rest;
    IndexIs(t, '\n', |line|);
    assert t[..|line|] == line && t[|line| + 1..] == rest;
  }

  lemma LinesLast(line: string)
    requires '\n' !in line
    ensures Lines(line) == if line == "" then [] else [line]
  {
    IndexIs(line, '\n', |line|);
  }

  lemma ItemsStep(line: string, rest: string)
    requires '\n' !in line
    ensures Items(line + ['\n'] + rest) == Items(line) + Items(rest)
  {
    hide Classify;
    LinesStep(line, rest);
    LinesLast(line);
    ClassesAppend([line], Lines(rest));
    BlankSkipped();
  }

  /** A text is its first line, or its first line and the rest. */
  lemma FirstLine(t: string) returns (line: string, rest: string, more: bool)
    ensures '\n' !in line && t == if more then line + ['\n'] + rest else line
    ensures more ==> |line| + |rest| < |t|
  {
    var i := IndexOf(t, '\n');
    line, more := t[..i], i < |t|;
    rest := if more then t[i + 1..] else "";
  }

  /** What a text says, line by line. */
  lemma {:induction false} ItemsAppend(t: string, rest: string)
    ensures Items(t + ['\n'] + rest) == Items(t) + Items(rest)
    decreases |t|
  {
    hide Items;
    var line, tail, more := FirstLine(t);
    if more {
      ItemsAppend(tail, rest);
      assert t + ['\n'] + rest == line + ['\n'] + (tail + ['\n'] + rest);
      ItemsStep(line, tail + ['\n'] + rest);
      ItemsStep(line, tail);
    } else {
      ItemsStep(line, rest);
    }
  }

  lemma ItemsOne(line: string)
    requires '\n' !in line
    ensures Items(line) == if Classify(line) == Skip then [] else [Classify(line)]
  {
    hide Classify;
    LinesLast(line);
    BlankSkipped();
    ClassesOne(line);
  }

  lemma ClassesOne(line: string)
    ensures Classes([line]) == if Classify(line) == Skip then [] else [Classify(line)]
  {
    hide Classify;
    assert [line][1..] == [];
    assert Classes([line][1..]) == [];
  }

  /** White space before and after a text says nothing. */
  lemma ItemsFront(t: string, c: char)
    requires IsSpace(c)
    ensures Items([c] + t) == Items(t)
  {
    hide Items, Classify;
    if c == '\n' {
      assert [c] + t == "" + ['\n'] + t;
      ItemsStep("", t);
      ItemsOne("");
      BlankSkipped();
    } else {
      var line, rest, more := FirstLine(t);
      TrimSpaceFront(line, c);
      ClassifyTrims([c] + line, line);
      ItemsOne(line);
      ItemsOne([c] + line);
      if more {
        assert [c] + t == ([c] + line) + ['\n'] + rest;
        ItemsStep([c] + line, rest);
        ItemsStep(line, rest);
      }
    }
  }

  lemma {:induction false} ItemsBack(t: string, c: char)
    requires IsSpace(c)
    ensures Items(t + [c]) == Items(t)
    decreases |t|
  {
    hide Items, Classify;
    if c == '\n' {
      assert t + [c] == t + ['\n'] + "";
      ItemsAppend(t, "");
      ItemsOne("");
      BlankSkipped();
    } else {
      var line, rest, more := FirstLine(t);
      if more {
        assert t + [c] == line + ['\n'] + (rest + [c]);
        ItemsStep(line, rest + [c]);
        ItemsStep(line, rest);
        ItemsBack(rest, c);
      } else {
        TrimSpaceBack(line, c);
        ClassifyTrims(line + [c], line);
        ItemsOne(line);
        ItemsOne(line + [c]);
      }
    }
  }

  lemma {:induction false} ItemsTrimLeft(t: string)
    ensures Items(TrimLeft(t)) == Items(t)
    decreases |t|
  {
    hide Items;
    if t != "" && IsSpace(t[0]) {
      ItemsTrimLeft(t[1..]);
      ItemsFront(t[1..], t[0]);
      assert t == [t[0]] + t[1..];
    }
  }

  lemma {:induction false} ItemsTrimRight(t: string)
    ensures Items(TrimRight(t)) == Items(t)
    decreases |t|
  {
    hide Items;
    if t != "" && IsSpace(t[|t| - 1]) {
      ItemsTrimRight(t[..|t| - 1]);
      ItemsBack(t[..|t| - 1], t[|t| - 1]);
      assert t == t[..|t| - 1] + [t[|t| - 1]];
    }
  }

  lemma ItemsTrimSpace(t: string)
    ensures Items(TrimSpace(t)) == Items(t)
  {
    hide Items;
    ItemsTrimLeft(t);
    ItemsTrimRight(TrimLeft(t));
  }

  // ---------------------------------------------------------------- the output

  /** The parts of a value between its commas. */
  function Parts(s: string): seq<string>
    decreases |s|
  {
    var i := IndexOf(s, ',');
    if i == |s| then [s] else [s[..i]] + Parts(s[i + 1..])
  }

  ghost predicate IsIpv4(p: string) { p != "" && ':' !in p }

  /** The first part that is not IPv6, else the first part, else nothing. */
  ghost function Choice(ps: seq<string>): string
    decreases |ps|
  {
    if exists i :: 0 <= i < |ps| && IsIpv4(TrimSpace(ps[i])) then FirstOf(ps, true) else FirstOf(ps, false)
  }

  ghost function FirstOf(ps: seq<string>, ipv4: bool): string
    decreases |ps|
  {
    if ps == [] then ""
    else if (if ipv4 then IsIpv4(TrimSpace(ps[0])) else TrimSpace(ps[0]) != "") then TrimSpace(ps[0])
    else FirstOf(ps[1..], ipv4)
  }

  method FirstIpv4OrFirst(s: string) returns (r: string)
    ensures r == Choice(Parts(s))
  {
    hide TrimSpace;
    var ps := Parts(s);
    var first := "";
    var i := 0;
    while i < |ps|
      invariant 0 <= i <= |ps|
      invariant forall j :: 0 <= j < i ==> !IsIpv4(TrimSpace(ps[j]))
      invariant FirstOf(ps, true) == FirstOf(ps[i..], true)
      invariant FirstOf(ps, false) == if first != "" then first else FirstOf(ps[i..], false)
    {
      var p := TrimSpace(ps[i]);
      assert ps[i..][0] == ps[i] && ps[i..][1..] == ps[i + 1..];
      if p != "" {
        if first == "" {
          first := p;
        }
        if ':' !in p {
          assert IsIpv4(TrimSpace(ps[i]));
          return p;
        }
      }
      i := i + 1;
    }
    r := first;
  }

  /** A single part is its own choice. */
  lemma ChoiceOfOne(a: string)
    requires Trimmed(a) && a != "" && ',' !in a
    ensures Choice(Parts(a)) == a
  {
    IndexIs(a, ',', |a|);
    TrimNothing(a);
    assert Parts(a) == [a];
    assert [a][1..] == [];
    assert IsIpv4(TrimSpace([a][0])) ==> FirstOf([a], true) == a;
    assert FirstOf([a], false) == a;
  }

  /** What the choice from a value is like. */
  lemma {:induction false} ChoiceIsPart(s: string, ipv4: bool)
    ensures var r := FirstOf(Parts(s), ipv4); Trimmed(r) && ',' !in r && ('\n' !in s ==> '\n' !in r)
    decreases |s|
  {
    hide TrimSpace;
    var i := IndexOf(s, ',');
    var ps := Parts(s);
    TrimmedResult(ps[0]);
    if i == |s| {
      assert ps[1..] == [];
    } else {
      ChoiceIsPart(s[i + 1..], ipv4);
      assert ps[1..] == Parts(s[i + 1..]);
      assert '\n' !in s ==> '\n' !in s[..i] && '\n' !in s[i + 1..];
    }
  }

  /** What is kept of a class, as lines. */
  function Rendered(c: Class): seq<string> {
    match c
    case Header(line) => ["", line]
    case Keep(key, val) => [key + " = " + val]
    case _ => []
  }

  function Render(cs: seq<Class>): seq<string> {
    if cs == [] then [] else Render(cs[..|cs| - 1]) + Rendered(cs[|cs| - 1])
  }

  function Join(ls: seq<string>): string {
    if ls == [] then "" else if |ls| == 1 then ls[0] else ls[0] + ['\n'] + Join(ls[1..])
  }

  function Text(cs: seq<Class>): string { TrimSpace(Join(Render(cs))) + ['\n'] }

  ghost predicate IsKept(c: Class) { c.Header? || c.Keep? }

  function Kept(cs: seq<Class>): seq<Class> {
    if cs == [] then []
    else Kept(cs[..|cs| - 1]) + (if cs[|cs| - 1].Header? || cs[|cs| - 1].Keep? then [cs[|cs| - 1]] else [])
  }

  /** The address: what the first line that names one chooses. */
  ghost function AddressOf(cs: seq<Class>): string {
    if cs == [] then ""
    else
      var a := AddressOf(cs[..|cs| - 1]);
      if a == "" && cs[|cs| - 1].Address? then Choice(Parts(cs[|cs| - 1].val)) else a
  }

  datatype Result = Ok(text: string, address: string) | Error

  /** Refused if any line is, or no address is found; else the kept lines, in order, and the address. */
  method ConvertConfig(input: string) returns (r: Result)
    ensures r.Ok? <==> Refuse !in Items(input) && AddressOf(Items(input)) != ""
    ensures r.Ok? ==> r.text == Text(Kept(Items(input))) && r.address == AddressOf(Items(input))
  {
    hide Classify, TrimSpace, Choice, Render, Kept, AddressOf, Classes, Lines;
    NothingYet();
    var ls := Lines(input);
    var out: seq<string>, address := [], "";
    ghost var cs: seq<Class> := [];
    var i := 0;
    assert ls[0..] == ls && [] + Classes(ls) == Classes(ls);
    while i < |ls|
      invariant 0 <= i <= |ls|
      invariant Items(input) == cs + Classes(ls[i..]) && Refuse !in cs
      invariant out == Render(Kept(cs)) && address == AddressOf(cs)
    {
      var c := Classify(ls[i]);
      ClassesStep(cs, ls, i);
      if c == Refuse {
        assert Items(input)[|cs|] == Refuse;
        return Error;
      }
      if c != Skip {
        Extended(cs, c);
        cs := cs + [c];
      }
      if c.Header? {
        out := out + ["", c.line];
      } else if c.Address? {
        if address == "" {
          address := FirstIpv4OrFirst(c.val);
        }
      } else if c.Keep? {
        out := out + [c.key + " = " + c.val];
      }
      i := i + 1;
    }
    ClassesNone(ls[i..]);
    assert Items(input) == cs;
    if address == "" {
      return Error;
    }
    return Ok(TrimSpace(Join(out)) + ['\n'], address);
  }

  lemma Extended(cs: seq<Class>, c: Class)
    ensures Render(Kept(cs + [c])) == Render(Kept(cs)) + (if IsKept(c) then Rendered(c) else [])
    ensures AddressOf(cs + [c]) == if AddressOf(cs) == "" && c.Address? then Choice(Parts(c.val)) else AddressOf(cs)
  {
    hide Choice;
    assert (cs + [c])[..|cs|] == cs;
    if IsKept(c) {
      assert (Kept(cs) + [c])[..|Kept(cs)|] == Kept(cs);
    } else {
      assert Kept(cs) + [] == Kept(cs) && Render(Kept(cs)) + [] == Render(Kept(cs));
    }
  }

  lemma ClassesNone(ls: seq<string>)
    requires ls == []
    ensures Classes(ls) == []
  {
  }

  lemma NothingYet()
    ensures Render(Kept([])) == [] && AddressOf([]) == ""
  {
  }

  lemma ClassesStep(cs: seq<Class>, ls: seq<string>, i: nat)
    requires i < |ls|
    ensures var c := Classify(ls[i]); cs + Classes(ls[i..]) == (if c == Skip then cs else cs + [c]) + Classes(ls[i + 1..])
  {
    hide Classify;
    assert ls[i..][0] == ls[i] && ls[i..][1..] == ls[i + 1..];
  }

  // ---------------------------------------------------------------- converting again

  ghost predicate GoodHeader(line: string) {
    line != "" && Trimmed(line) && '\n' !in line && line[0] == '[' && line[|line| - 1] == ']'
  }

  /** What a class of a line is like. */
  ghost predicate GoodClass(c: Class) {
    match c
    case Header(line) => GoodHeader(line)
    case Keep(key, val) => key in ALLOWED && Trimmed(val) && '\n' !in val
    case Address(val) => '\n' !in val
    case _ => true
  }

  lemma ClassifyGood(raw: string)
    requires '\n' !in raw
    ensures GoodClass(Classify(raw))
  {
    hide TrimSpace;
    var line := TrimSpace(raw);
    TrimmedResult(raw);
    var i := IndexOf(line, '=');
    if i < |line| {
      TrimmedResult(line[i + 1..]);
    }
  }

  lemma {:induction false} LinesGood(t: string)
    ensures forall j :: 0 <= j < |Lines(t)| ==> '\n' !in Lines(t)[j]
    decreases |t|
  {
    var i := IndexOf(t, '\n');
    if i < |t| {
      LinesGood(t[i + 1..]);
    }
  }

  lemma {:induction false} ClassesGood(ls: seq<string>)
    requires forall j :: 0 <= j < |ls| ==> '\n' !in ls[j]
    ensures forall j :: 0 <= j < |Classes(ls)| ==> GoodClass(Classes(ls)[j]) && Classes(ls)[j] != Skip
    decreases |ls|
  {
    hide Classify, GoodClass;
    if ls != [] {
      ClassifyGood(ls[0]);
      ClassesGood(ls[1..]);
    }
  }

  lemma {:induction false} KeptGood(cs: seq<Class>)
    requires forall j :: 0 <= j < |cs| ==> GoodClass(cs[j])
    ensures forall j :: 0 <= j < |Kept(cs)| ==> GoodClass(Kept(cs)[j]) && IsKept(Kept(cs)[j])
    decreases |cs|
  {
    hide GoodClass;
    if cs != [] {
      KeptGood(cs[..|cs| - 1]);
    }
  }

  /** An address found can be written on a line and read again. */
  ghost predicate GoodAddress(a: string) { Trimmed(a) && ',' !in a && '\n' !in a }

  lemma {:induction false} AddressGood(cs: seq<Class>)
    requires forall j :: 0 <= j < |cs| ==> GoodClass(cs[j])
    ensures GoodAddress(AddressOf(cs))
    decreases |cs|
  {
    if cs != [] {
      AddressGood(cs[..|cs| - 1]);
      var c := cs[|cs| - 1];
      assert GoodClass(c);
      if c.Address? {
        ChoiceIsPart(c.val, true);
        ChoiceIsPart(c.val, false);
      }
    }
  }

  /** A key that is not empty, has no space at its ends, no equals sign, and does not look like a comment or a header. */
  ghost predicate PlainKey(k: string) {
    k != "" && Trimmed(k) && '=' !in k && k[0] != '#' && k[0] != '['
  }

  lemma AllowedPlain(k: string)
    requires k in ALLOWED || k == "Address"
    ensures PlainKey(k)
  {
  }

  /** Reading a line that was written. */
  lemma SettingRead(k: string, v: string)
    requires PlainKey(k) && Trimmed(v)
    ensures var line := TrimSpace(k + " = " + v);
            && line != "" && line[0] == k[0] && IndexOf(line, '=') == |k| + 1 < |line|
            && TrimSpace(line[..|k| + 1]) == k && TrimSpace(line[|k| + 2..]) == v
  {
    hide IsSpace;
    SpaceIsSpace();
    var raw := k + " = " + v;
    TrimSpaceBack(k, ' ');
    TrimNothing(k);
    if v == "" {
      var line := k + " =";
      assert raw == line + [' '];
      TrimSpaceBack(line, ' ');
      TrimNothing(line);
      IndexIs(line, '=', |k| + 1);
      assert line[..|k| + 1] == k + [' '] && line[|k| + 2..] == "";
      TrimNothing("");
    } else {
      assert raw[0] == k[0] && raw[|raw| - 1] == v[|v| - 1];
      TrimNothing(raw);
      IndexIs(raw, '=', |k| + 1);
      assert raw[..|k| + 1] == k + [' '] && raw[|k| + 2..] == [' '] + v;
      TrimSpaceFront(v, ' ');
      TrimNothing(v);
    }
  }

  lemma SpaceIsSpace()
    ensures IsSpace(' ') && !IsSpace('=')
  {
  }

  lemma RenderedRead(c: Class)
    requires GoodClass(c) && IsKept(c)
    ensures Classes(Rendered(c)) == [c] && forall j :: 0 <= j < |Rendered(c)| ==> '\n' !in Rendered(c)[j]
  {
    hide TrimSpace, Trimmed;
    match c {
      case Header(line) =>
        TrimNothing(line);
        BlankSkipped();
        ClassesOne(line);
        assert ["", line][1..] == [line];
      case Keep(k, v) =>
        AllowedPlain(k);
        SettingRead(k, v);
        AllowedIsKept(k);
        ClassesOne(k + " = " + v);
        NoNewline(k);
    }
  }

  lemma AllowedIsKept(k: string)
    requires k in ALLOWED
    ensures k != "Address" && k !in DROPPED
  {
  }

  lemma NoNewline(k: string)
    requires k in ALLOWED
    ensures '\n' !in k
  {
  }

  lemma AddressRead(a: string)
    requires Trimmed(a)
    ensures Classify("Address" + " = " + a) == Address(a)
  {
    hide TrimSpace, Trimmed;
    AllowedPlain("Address");
    SettingRead("Address", a);
  }

  lemma {:induction false} RenderRead(ks: seq<Class>)
    requires forall j :: 0 <= j < |ks| ==> GoodClass(ks[j]) && IsKept(ks[j])
    ensures Classes(Render(ks)) == ks && forall j :: 0 <= j < |Render(ks)| ==> '\n' !in Render(ks)[j]
    decreases |ks|
  {
    hide GoodClass, Rendered;
    if ks != [] {
      var front, c := ks[..|ks| - 1], ks[|ks| - 1];
      RenderRead(front);
      RenderedRead(c);
      ClassesAppend(Render(front), Rendered(c));
      assert Render(ks) == Render(front) + Rendered(c);
      hide Classes, Render;
      assert ks == front + [c];
    }
  }

  lemma {:induction false} ItemsJoin(ls: seq<string>)
    requires forall j :: 0 <= j < |ls| ==> '\n' !in ls[j]
    ensures Items(Join(ls)) == Classes(ls)
    decreases |ls|
  {
    hide Classify;
    if |ls| == 1 {
      assert ls == [ls[0]];
      ItemsOne(ls[0]);
      ClassesOne(ls[0]);
    } else if |ls| > 1 {
      ItemsJoin(ls[1..]);
      ItemsStep(ls[0], Join(ls[1..]));
      ItemsOne(ls[0]);
      ClassesOne(ls[0]);
      ClassesAppend([ls[0]], ls[1..]);
      assert ls == [ls[0]] + ls[1..];
    }
  }

  /** The output with the address line behind it. */
  function WithAddress(text: string, address: string): string {
    text + ("Address" + " = " + address) + ['\n']
  }

  /** Converting the output of a conversion again, with the address line put back, changes nothing. */
  lemma ConvertedIsFixed(input: string)
    requires Refuse !in Items(input) && AddressOf(Items(input)) != ""
    ensures var cs := Items(input);
            var again := Items(WithAddress(Text(Kept(cs)), AddressOf(cs)));
            && Refuse !in again && AddressOf(again) == AddressOf(cs) && Text(Kept(again)) == Text(Kept(cs))
  {
    hide Items, TrimSpace, Choice, GoodClass;
    var cs := Items(input);
    ItemsGood(input);
    var ks, a := Kept(cs), AddressOf(cs);
    KeptGood(cs);
    AddressGood(cs);
    RenderRead(ks);
    ItemsJoin(Render(ks));
    ItemsTrimSpace(Join(Render(ks)));
    var body, line := TrimSpace(Join(Render(ks))), "Address" + " = " + a;
    assert WithAddress(Text(ks), a) == body + ['\n'] + (line + ['\n']);
    ItemsAppend(body, line + ['\n']);
    ItemsBackNewline(line);
    AddressRead(a);
    AddressLineHasNoNewline(a);
    ItemsOne(line);
    var again := ks + [Address(a)];
    KeptAgain(ks, a);
  }

  /** Two conversions in a row: the second accepts what the first made, and makes the same of it. */
  method ConvertTwice(input: string) returns (r: Result, again: Result)
    ensures r.Ok? ==> again == r
  {
    hide Items, Text, Kept, AddressOf;
    r := ConvertConfig(input);
    again := r;
    if r.Ok? {
      ConvertedIsFixed(input);
      again := ConvertConfig(WithAddress(r.text, r.address));
    }
  }

  lemma ItemsGood(input: string)
    ensures forall j :: 0 <= j < |Items(input)| ==> GoodClass(Items(input)[j])
  {
    LinesGood(input);
    ClassesGood(Lines(input));
  }

  lemma ItemsBackNewline(line: string)
    ensures Items(line + ['\n']) == Items(line)
  {
    assert IsSpace('\n');
    ItemsBack(line, '\n');
  }

  lemma AddressLineHasNoNewline(a: string)
    requires GoodAddress(a)
    ensures '\n' !in "Address" + " = " + a
  {
  }

  lemma {:induction false} KeptAll(ks: seq<Class>)
    requires forall j :: 0 <= j < |ks| ==> IsKept(ks[j])
    ensures Kept(ks) == ks && AddressOf(ks) == "" && Refuse !in ks
    decreases |ks|
  {
    if ks != [] {
      var front, last := ks[..|ks| - 1], ks[|ks| - 1];
      KeptAll(front);
      assert Kept(ks) == Kept(front) + [last] && AddressOf(ks) == "";
      hide Kept, AddressOf;
      assert ks == front + [last];
    }
  }

  lemma KeptAgain(ks: seq<Class>, a: string)
    requires (forall j :: 0 <= j < |ks| ==> IsKept(ks[j])) && GoodAddress(a) && a != ""
    ensures Kept(ks + [Address(a)]) == ks && AddressOf(ks + [Address(a)]) == a && Refuse !in ks + [Address(a)]
  {
    KeptAll(ks);
    assert (ks + [Address(a)])[..|ks|] == ks;
    ChoiceOfOne(a);
  }
}
