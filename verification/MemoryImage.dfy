/** The DDR4 memory image of a test case: the bump allocator that lays out its buffers, the text it prints, and
    the reader that turns the text back into words. */
module MemoryImage {
  import opened Wrappers
  import opened Words
  import opened Powers
  import opened Rounding

  const DDR_BASE: nat := 0x1000_0000

  datatype Buffer = Buffer(addr: nat, words: nat) {
    ghost predicate Holds(a: nat) {
      addr <= a < addr + 4 * words && (a - addr) % 4 == 0
    }
  }

  /** (x + 31) & ~31 */
  function RoundUp32(x: nat): (r: nat)
    ensures x <= r < x + 32 && r % 32 == 0
  {
    (x + 31) / 32 * 32
  }

  /** buffers are line-aligned, in address order without overlap, between DDR_BASE and top, and words has exactly
      their word addresses. */
  ghost predicate LaidOut(words: map<nat, word>, top: nat, buffers: seq<Buffer>) {
    && top >= DDR_BASE && top % 32 == 0
    && (forall i | 0 <= i < |buffers| ::
          DDR_BASE <= buffers[i].addr && buffers[i].addr % 32 == 0 && buffers[i].addr + 4 * buffers[i].words <= top)
    && (forall i, j | 0 <= i < j < |buffers| :: buffers[i].addr + 4 * buffers[i].words <= buffers[j].addr)
    && (forall a | a in words :: InSome(buffers, a))
    && (forall a: nat | InSome(buffers, a) :: a in words)
  }

  ghost predicate InSome(buffers: seq<Buffer>, a: nat) {
    exists i :: 0 <= i < |buffers| && buffers[i].Holds(a)
  }

  /** Distinct buffers never share a word. */
  lemma Disjoint(words: map<nat, word>, top: nat, buffers: seq<Buffer>, i: nat, j: nat, a: nat)
    requires LaidOut(words, top, buffers) && i < |buffers| && j < |buffers|
    requires buffers[i].Holds(a) && buffers[j].Holds(a)
    ensures i == j
  {
  }

  class Image {
    var words: map<nat, word>
    var top: nat
    /** What has been handed out, oldest first. */
    ghost var buffers: seq<Buffer>

    ghost predicate Valid()
      reads this
    {
      LaidOut(words, top, buffers)
    }

    constructor ()
      ensures Valid() && words == map[] && top == DDR_BASE && buffers == [] && Tight(words, top)
    {
      words := map[];
      top := DDR_BASE;
      buffers := [];
    }

    /** alloc: a line-aligned buffer of nwords, initialized from `init` (truncated to 32 bits) or zero. A list of
        the wrong length fails the assertion, after top has moved. */
    method Alloc(nwords: nat, init: Option<seq<int>>) returns (r: Option<nat>)
      requires Valid()
      modifies this
      ensures Valid()
      ensures r.Some? <==> (init.Some? ==> |init.value| == nwords)
      ensures r.Some? ==>
                && r.value == old(top) && r.value % 32 == 0 && top == r.value + RoundUp32(4 * nwords)
                && buffers == old(buffers) + [Buffer(r.value, nwords)]
                && (forall i: nat | i < nwords :: Initialized(words, r.value, i, init))
                && (forall a | a in old(words) :: a in words && words[a] == old(words)[a])
      ensures r.None? ==> words == old(words) && buffers == old(buffers)
      ensures r.Some? && old(Tight(words, top)) ==> Tight(words, top)
    {
      var addr := top;
      ghost var before := words;
      top := top + RoundUp32(4 * nwords);
      if init.Some? && |init.value| != nwords {
        return None;
      }
      KeysBelow(before, addr, buffers);
      for i := 0 to nwords
        invariant addr == old(top) && top == addr + RoundUp32(4 * nwords) && buffers == old(buffers)
        invariant Filled(before, words, addr, i, init)
      {
        FillStep(before, words, addr, i, init);
        words := words[addr + 4 * i := if init.Some? then Wrap(init.value[i]) else 0];
      }
      buffers := buffers + [Buffer(addr, nwords)];
      AddBuffer(before, words, addr, nwords, top, old(buffers));
      TightAfter(before, words, addr, nwords, top, init);
      r := Some(addr);
    }
  }

  /** Nothing but the padding of its line lies behind the last word. */
  ghost predicate Tight(words: map<nat, word>, top: nat) {
    words != map[] ==> exists a :: a in words && top < a + 36
  }

  lemma TightAfter(before: map<nat, word>, words: map<nat, word>, addr: nat, n: nat, top: nat, init: Option<seq<int>>)
    requires Filled(before, words, addr, n, init) && top == addr + RoundUp32(4 * n)
    ensures Tight(before, addr) ==> Tight(words, top)
  {
    if n > 0 {
      assert Initialized(words, addr, n - 1, init);
      assert top < addr + 4 * (n - 1) + 36;
    } else if words != map[] {
      var a :| a in words;
      assert a in before;
      assert RoundUp32(0) == 0;
    }
  }

  /** words is `before` plus the first i words of the buffer at addr. */
  ghost predicate Filled(before: map<nat, word>, words: map<nat, word>, addr: nat, i: nat, init: Option<seq<int>>) {
    && (forall j: nat | j < i :: Initialized(words, addr, j, init))
    && (forall a | a in before :: a in words && words[a] == before[a])
    && (forall a | a in words :: a in before || Buffer(addr, i).Holds(a))
    && (forall a: nat | Buffer(addr, i).Holds(a) :: a in words)
  }

  lemma FillStep(before: map<nat, word>, words: map<nat, word>, addr: nat, i: nat, init: Option<seq<int>>)
    requires Filled(before, words, addr, i, init) && (init.Some? ==> i < |init.value|)
    requires forall a | a in before :: a < addr
    ensures Filled(before, words[addr + 4 * i := if init.Some? then Wrap(init.value[i]) else 0], addr, i + 1, init)
  {
    var w := words[addr + 4 * i := if init.Some? then Wrap(init.value[i]) else 0];
    forall a: nat
      ensures Buffer(addr, i + 1).Holds(a) <==> Buffer(addr, i).Holds(a) || a == addr + 4 * i
    {
    }
    forall j: nat | j < i + 1
      ensures Initialized(w, addr, j, init)
    {
      assert j < i ==> Initialized(words, addr, j, init);
    }
  }

  lemma KeysBelow(words: map<nat, word>, top: nat, buffers: seq<Buffer>)
    requires LaidOut(words, top, buffers)
    ensures forall a | a in words :: DDR_BASE <= a && a % 4 == 0 && a + 4 <= top
  {
    forall a | a in words
      ensures DDR_BASE <= a && a % 4 == 0 && a + 4 <= top
    {
      assert InSome(buffers, a);
      var i :| 0 <= i < |buffers| && buffers[i].Holds(a);
      HoldsFacts(buffers[i], a);
    }
  }

  lemma HoldsFacts(b: Buffer, a: nat)
    requires b.Holds(a) && b.addr % 32 == 0
    ensures a % 4 == 0 && b.addr <= a && a + 4 <= b.addr + 4 * b.words
  {
    var q, r := (a - b.addr) / 4, b.addr / 32;
    assert a - b.addr == 4 * q && b.addr == 32 * r;
    assert a == 4 * (q + 8 * r);
  }

  ghost predicate Initialized(words: map<nat, word>, addr: nat, i: nat, init: Option<seq<int>>) {
    && addr + 4 * i in words && (init.Some? ==> i < |init.value|)
    && words[addr + 4 * i] == if init.Some? then Wrap(init.value[i]) else 0
  }

  lemma AddBuffer(before: map<nat, word>, words: map<nat, word>, addr: nat, n: nat, top: nat, buffers: seq<Buffer>)
    requires LaidOut(before, addr, buffers) && top == addr + RoundUp32(4 * n)
    requires forall a | a in before :: a in words
    requires forall a | a in words :: a in before || Buffer(addr, n).Holds(a)
    requires forall a: nat | Buffer(addr, n).Holds(a) :: a in words
    ensures LaidOut(words, top, buffers + [Buffer(addr, n)])
  {
    var all := buffers + [Buffer(addr, n)];
    forall a: nat
      ensures InSome(all, a) <==> InSome(buffers, a) || Buffer(addr, n).Holds(a)
    {
      if InSome(buffers, a) {
        var i :| 0 <= i < |buffers| && buffers[i].Holds(a);
        assert all[i].Holds(a);
      }
      if Buffer(addr, n).Holds(a) {
        assert all[|buffers|].Holds(a);
      }
    }
  }

  // ----- hexadecimal text -----

  function HexDigit(d: nat): char
    requires d < 16
  {
    "0123456789abcdef"[d]
  }

  /** %x */
  function Hex(n: nat): (s: string)
    ensures s != ""
  {
    if n < 16 then [HexDigit(n)] else Hex(n / 16) + [HexDigit(n % 16)]
  }

  function Zeros(n: nat): (s: string)
    ensures |s| == n
  {
    seq(n, _ => '0')
  }

  /** %08x */
  function Hex8(w: word): string {
    var s := Hex(w);
    Zeros(if |s| < 8 then 8 - |s| else 0) + s
  }

  function DigitValue(c: char): Option<nat> {
    if '0' <= c <= '9' then Some((c - '0') as nat)
    else if 'a' <= c <= 'f' then Some((c - 'a') as nat + 10)
    else if 'A' <= c <= 'F' then Some((c - 'A') as nat + 10)
    else None
  }

  predicate AllHex(s: string) {
    forall i | 0 <= i < |s| :: DigitValue(s[i]).Some?
  }

  function HexValue(s: string): nat
    requires AllHex(s)
  {
    if s == "" then 0 else 16 * HexValue(s[..|s| - 1]) + DigitValue(s[|s| - 1]).value
  }

  /** The leading hexadecimal digits. */
  function HexPrefix(s: string): (p: string)
    ensures AllHex(p)
  {
    if s == "" || DigitValue(s[0]).None? then "" else [s[0]] + HexPrefix(s[1..])
  }

  const ULONG: nat := 0x1_0000_0000_0000_0000

  /** std::stoul(s, nullptr, 16) on a token without white space: an optional sign, an optional 0x, then digits; what
      follows the digits is ignored. No digits, or a value past unsigned long, throws. */
  function Stoul(s: string): Option<nat> {
    var negative := |s| > 0 && s[0] == '-';
    var body := if |s| > 0 && (s[0] == '-' || s[0] == '+') then s[1..] else s;
    var prefixed := |body| > 2 && body[0] == '0' && (body[1] == 'x' || body[1] == 'X') && DigitValue(body[2]).Some?;
    var digits := HexPrefix(if prefixed then body[2..] else body);
    if digits == "" then None
    else
      var v := HexValue(digits);
      if v >= ULONG then None
      else Some(if negative && v > 0 then ULONG - v else v)
  }

  lemma {:induction false} HexIsHex(n: nat)
    ensures AllHex(Hex(n)) && HexValue(Hex(n)) == n
  {
    if n >= 16 {
      HexIsHex(n / 16);
      assert Hex(n)[..|Hex(n)| - 1] == Hex(n / 16);
    } else {
      assert Hex(n)[..0] == "";
    }
  }

  lemma {:induction false} LeadingZeros(z: nat, s: string)
    requires AllHex(s)
    ensures AllHex(Zeros(z) + s) && HexValue(Zeros(z) + s) == HexValue(s)
  {
    if s == "" {
      assert Zeros(z) + s == Zeros(z);
      if z > 0 {
        LeadingZeros(z - 1, s);
        assert Zeros(z)[..z - 1] == Zeros(z - 1) == Zeros(z - 1) + s;
      }
    } else {
      var t := s[..|s| - 1];
      LeadingZeros(z, t);
      assert (Zeros(z) + s)[..z + |s| - 1] == Zeros(z) + t;
    }
  }

  lemma {:induction false} HexPrefixAll(s: string)
    requires AllHex(s)
    ensures HexPrefix(s) == s
  {
    if s != "" {
      HexPrefixAll(s[1..]);
    }
  }

  lemma StoulDigits(s: string)
    requires AllHex(s) && s != "" && HexValue(s) < ULONG
    ensures Stoul(s) == Some(HexValue(s))
  {
    hide DigitValue, HexValue, HexPrefix;
    HexPrefixAll(s);
    assert DigitValue(s[0]).Some?;
    DigitChar(s[0]);
    if |s| > 1 {
      assert DigitValue(s[1]).Some?;
      DigitChar(s[1]);
    }
  }

  lemma DigitChar(c: char)
    requires DigitValue(c).Some?
    ensures c != '-' && c != '+' && c != 'x' && c != 'X'
  {
  }

  /** Printing a word or an index and parsing it back gives the number. */
  lemma HexRoundTrip(n: nat)
    requires n < ULONG
    ensures Stoul(Hex(n)) == Some(n)
    ensures n < MOD32 ==> Stoul(Hex8(n)) == Some(n)
    ensures AllHex(Hex(n)) && (n < MOD32 ==> AllHex(Hex8(n)) && Hex8(n) != "")
  {
    hide Stoul, HexValue, Hex;
    HexIsHex(n);
    StoulDigits(Hex(n));
    if n < MOD32 {
      LeadingZeros(if |Hex(n)| < 8 then 8 - |Hex(n)| else 0, Hex(n));
      StoulDigits(Hex8(n));
    }
  }

  lemma {:induction false} HexLength(n: nat, d: nat)
    requires d > 0 && n < Pow2(4 * d)
    ensures |Hex(n)| <= d
  {
    hide Pow2;
    if n >= 16 {
      Sixteen(4 * d - 4);
      HexLength(n / 16, d - 1);
    }
  }

  lemma Sixteen(e: nat)
    ensures Pow2(e + 4) == 16 * Pow2(e) && Pow2(0) == 1
  {
    hide Pow2;
    Pow2Zero();
    Pow2Succ(e);
    Pow2Succ(e + 1);
    Pow2Succ(e + 2);
    Pow2Succ(e + 3);
  }

  predicate LowerHex(c: char) {
    '0' <= c <= '9' || 'a' <= c <= 'f'
  }

  lemma {:induction false} HexDigits(n: nat)
    ensures forall i | 0 <= i < |Hex(n)| :: LowerHex(Hex(n)[i])
    ensures n > 0 ==> Hex(n)[0] != '0'
  {
    if n >= 16 {
      HexDigits(n / 16);
    }
  }

  /** The lines are in lower case; a word's line has eight digits, an index no leading zero. */
  lemma HexShape(n: nat)
    ensures forall i | 0 <= i < |Hex(n)| :: LowerHex(Hex(n)[i])
    ensures n > 0 ==> Hex(n)[0] != '0'
    ensures n < MOD32 ==> |Hex8(n)| == 8 && forall i | 0 <= i < 8 :: LowerHex(Hex8(n)[i])
  {
    hide Hex, Pow2;
    HexDigits(n);
    Pow2Word();
    if n < MOD32 {
      HexLength(n, 8);
    }
  }

  // ----- the writer -----

  /** (a >> 2) & (WORDS - 1) */
  function Index(a: nat, lg: nat): nat {
    a / 4 % Pow2(lg)
  }

  ghost predicate Sorted(keys: seq<nat>, words: map<nat, word>) {
    && (forall i, j | 0 <= i < j < |keys| :: keys[i] < keys[j])
    && (forall i | 0 <= i < |keys| :: keys[i] in words)
    && (forall a | a in words :: a in keys)
  }

  /** Whether word k needs an address line. */
  predicate NeedsAddress(keys: seq<nat>, lg: nat, k: nat)
    requires k < |keys|
  {
    k == 0 || Index(keys[k], lg) != Index(keys[k - 1], lg) + 1
  }

  /** The lines from key k on. */
  ghost function Text(words: map<nat, word>, keys: seq<nat>, lg: nat, k: nat): string
    requires k <= |keys| && forall i | 0 <= i < |keys| :: keys[i] in words
    decreases |keys| - k
  {
    if k == |keys| then ""
    else
      (if NeedsAddress(keys, lg, k) then "@" + Hex(Index(keys[k], lg)) + "\n" else "")
      + Hex8(words[keys[k]]) + "\n" + Text(words, keys, lg, k + 1)
  }

  /** write: one hex word per line in address order, with an @index line wherever the index jumps. */
  method Write(words: map<nat, word>, keys: seq<nat>, lg: nat) returns (text: string)
    requires Sorted(keys, words)
    ensures text == Text(words, keys, lg, 0)
  {
    hide Hex, Hex8, Pow2, Text;
    EmptyText(words, keys, lg);
    text := "";
    for k := 0 to |keys|
      invariant text + Text(words, keys, lg, k) == Text(words, keys, lg, 0)
    {
      ghost var before, rest := text, Text(words, keys, lg, k + 1);
      var line := Hex8(words[keys[k]]) + "\n";
      if NeedsAddress(keys, lg, k) {
        line := "@" + Hex(Index(keys[k], lg)) + "\n" + line;
      }
      text := text + line;
      TextStep(words, keys, lg, k);
      assert line + rest == Text(words, keys, lg, k);
      assert before + line + rest == before + (line + rest);
    }
  }

  // ----- the reader -----

  predicate IsSpace(c: char) {
    c == ' ' || c == '\n' || c == '\t' || c == '\r' || c as int == 11 || c as int == 12
  }

  /** The stream past any white space. */
  function SkipSpace(s: string): (r: string)
    ensures |r| <= |s| && (r != "" ==> !IsSpace(r[0]))
  {
    if s != "" && IsSpace(s[0]) then SkipSpace(s[1..]) else s
  }

  /** Length of the token the stream starts with. */
  function TokenLength(s: string): (n: nat)
    ensures n <= |s| && (s != "" && !IsSpace(s[0]) ==> n > 0)
  {
    if s == "" || IsSpace(s[0]) then 0 else 1 + TokenLength(s[1..])
  }

  /** img.resize(n, 0) when that grows it. */
  function Grow(img: seq<word>, n: nat): (r: seq<word>)
    ensures |r| == if |img| < n then n else |img|
  {
    if |img| < n then img + seq(n - |img|, _ => 0) else img
  }

  /** The words a stream leaves, from position i of img; None is a thrown exception. */
  function ReadFrom(s: string, img: seq<word>, i: nat): Option<seq<word>>
    decreases |s|
  {
    var t := SkipSpace(s);
    if t == "" then Some(img)
    else
      var n := TokenLength(t);
      var tok, rest := t[..n], t[n..];
      if tok[0] == '@' then
        var at :- Stoul(tok[1..]);
        ReadFrom(rest, img, at)
      else
        var v :- Stoul(tok);
        ReadFrom(rest, Grow(img, i + 1)[i := Wrap(v)], i + 1)
  }

  /** The vector padded to whole 32-byte lines. */
  function PadLine(img: seq<word>): seq<word> {
    Grow(img, (|img| + 7) / 8 * 8)
  }

  /** read_image: the token loop. */
  method ReadImage(text: string) returns (img: Option<seq<word>>)
    ensures img == var r := ReadFrom(text, [], 0); if r.None? then None else Some(PadLine(r.value))
  {
    var s, words: seq<word>, i: nat := text, [], 0;
    while true
      invariant ReadFrom(s, words, i) == ReadFrom(text, [], 0)
      decreases |s|
    {
      var t := SkipSpace(s);
      if t == "" {
        break;
      }
      var n := TokenLength(t);
      var tok, rest := t[..n], t[n..];
      if tok[0] == '@' {
        var at := Stoul(tok[1..]);
        if at.None? {
          return None;
        }
        s, i := rest, at.value;
        continue;
      }
      var v := Stoul(tok);
      if v.None? {
        return None;
      }
      words := Grow(words, i + 1)[i := Wrap(v.value)];
      s, i := rest, i + 1;
    }
    img := Some(PadLine(words));
  }

  // ----- the round trip -----

  predicate NoSpace(s: string) {
    forall i | 0 <= i < |s| :: !IsSpace(s[i])
  }

  lemma {:induction false} TokenAt(tok: string, rest: string)
    requires NoSpace(tok)
    ensures TokenLength(tok + "\n" + rest) == |tok|
  {
    var s := tok + "\n" + rest;
    if tok == "" {
      assert s[0] == '\n';
    } else {
      TokenAt(tok[1..], rest);
      assert s[1..] == tok[1..] + "\n" + rest;
    }
  }

  /** A leading newline changes nothing. */
  lemma ReadNewline(rest: string, img: seq<word>, i: nat)
    ensures ReadFrom("\n" + rest, img, i) == ReadFrom(rest, img, i)
  {
  }

  /** What one token does. */
  lemma ReadToken(tok: string, rest: string, img: seq<word>, i: nat)
    requires NoSpace(tok) && tok != ""
    ensures ReadFrom(tok + "\n" + rest, img, i) ==
            if tok[0] == '@' then
              (var at := Stoul(tok[1..]); if at.None? then None else ReadFrom(rest, img, at.value))
            else
              (var v := Stoul(tok);
               if v.None? then None else ReadFrom(rest, Grow(img, i + 1)[i := Wrap(v.value)], i + 1))
  {
    hide Stoul, Grow;
    var s := tok + "\n" + rest;
    TokenAt(tok, rest);
    assert SkipSpace(s) == s && s[..|tok|] == tok && s[|tok|..] == "\n" + rest;
    if tok[0] == '@' && Stoul(tok[1..]).Some? {
      ReadNewline(rest, img, Stoul(tok[1..]).value);
    } else if tok[0] != '@' && Stoul(tok).Some? {
      ReadNewline(rest, Grow(img, i + 1)[i := Wrap(Stoul(tok).value)], i + 1);
    }
  }

  /** Digits are not white space, nor the address mark. */
  lemma DigitsAreTokens(s: string)
    requires AllHex(s)
    ensures NoSpace(s) && (s != "" ==> s[0] != '@')
  {
  }

  lemma ReadAddressLine(at: nat, rest: string, img: seq<word>, i: nat)
    requires at < ULONG
    ensures ReadFrom("@" + Hex(at) + "\n" + rest, img, i) == ReadFrom(rest, img, at)
  {
    hide Stoul, Hex, AllHex, ReadFrom;
    HexRoundTrip(at);
    DigitsAreTokens(Hex(at));
    var tok := "@" + Hex(at);
    assert tok[1..] == Hex(at);
    ReadToken(tok, rest, img, i);
  }

  lemma ReadWordLine(w: word, rest: string, img: seq<word>, i: nat)
    ensures ReadFrom(Hex8(w) + "\n" + rest, img, i) == ReadFrom(rest, Grow(img, i + 1)[i := w], i + 1)
  {
    hide Stoul, Hex8, AllHex, ReadFrom, Hex;
    HexRoundTrip(w);
    DigitsAreTokens(Hex8(w));
    ReadToken(Hex8(w), rest, img, i);
    assert Wrap(w) == w;
  }

  /** The word position an address is for. */
  function Position(a: nat): nat
    requires a >= DDR_BASE
  {
    (a - DDR_BASE) / 4
  }

  ghost predicate InWindow(keys: seq<nat>, lg: nat) {
    forall i | 0 <= i < |keys| :: DDR_BASE <= keys[i] < DDR_BASE + 4 * Pow2(lg) && keys[i] % 4 == 0
  }

  /** Within the window the mask strips exactly the base, as long as the window is at most 2^26 words. */
  lemma IndexIsPosition(a: nat, lg: nat)
    requires lg <= 26 && DDR_BASE <= a < DDR_BASE + 4 * Pow2(lg) && a % 4 == 0
    ensures Index(a, lg) == Position(a) < ULONG
  {
    hide Pow2;
    Pow2Mono(lg, 26);
    BaseWords(lg);
    var q := Pow2(26 - lg);
    assert a / 4 == q * Pow2(lg) + Position(a);
    DivMod(q, Position(a), Pow2(lg));
  }

  lemma BaseWords(lg: nat)
    requires lg <= 26
    ensures Pow2(26) == 0x400_0000 && Pow2(26 - lg) * Pow2(lg) == 0x400_0000
  {
    hide Pow2;
    Pow2Add(26 - lg, lg);
    Pow2Word();
    Pow2Add(8, 2);
    Pow2Add(16, 10);
    assert Pow2(2) == 4 by {
      Pow2Zero();
      Pow2Succ(0);
      Pow2Succ(1);
    }
  }

  /** Two words of one window never share an index. */
  lemma IndexInjective(a: nat, b: nat, lg: nat)
    requires DDR_BASE <= a < b < DDR_BASE + 4 * Pow2(lg) && a % 4 == 0 && b % 4 == 0
    ensures Index(a, lg) != Index(b, lg)
  {
    hide Pow2;
    DivIdentity(a / 4, Pow2(lg));
    DivIdentity(b / 4, Pow2(lg));
    if Index(a, lg) == Index(b, lg) {
      SameResidue(a / 4, b / 4, Pow2(lg));
    }
  }

  lemma SameResidue(x: nat, y: nat, s: nat)
    requires s > 0 && x < y < x + s
    ensures x % s != y % s
  {
    DivIdentity(x, s);
    DivIdentity(y, s);
    var d := y / s - x / s;
    assert d * s == y / s * s - x / s * s;
    SignOfProduct(d, s);
    SignOfProduct(d - 1, s);
    assert (d - 1) * s == d * s - s;
  }

  /** How far the first k keys' indices reach. */
  function Extent(keys: seq<nat>, lg: nat, k: nat): nat
    requires k <= |keys|
  {
    if k == 0 then 0
    else
      var e, i := Extent(keys, lg, k - 1), Index(keys[k - 1], lg) + 1;
      if e < i then i else e
  }

  /** img holds exactly the first k keys' words at their indices, zero elsewhere, and ends at the furthest. */
  ghost predicate Loaded(words: map<nat, word>, keys: seq<nat>, lg: nat, k: nat, img: seq<word>)
    requires k <= |keys| && forall i | 0 <= i < |keys| :: keys[i] in words
  {
    && |img| == Extent(keys, lg, k)
    && (forall t | 0 <= t < k :: Index(keys[t], lg) < |img| && img[Index(keys[t], lg)] == words[keys[t]])
    && (forall j | 0 <= j < |img| :: img[j] == 0 || Written(keys, lg, k, j))
  }

  ghost predicate Written(keys: seq<nat>, lg: nat, k: nat, j: nat)
    requires k <= |keys|
  {
    exists t :: 0 <= t < k && Index(keys[t], lg) == j
  }

  lemma LoadStep(words: map<nat, word>, keys: seq<nat>, lg: nat, k: nat, img: seq<word>)
    requires k < |keys| && Sorted(keys, words) && InWindow(keys, lg) && Loaded(words, keys, lg, k, img)
    ensures var i := Index(keys[k], lg);
            Loaded(words, keys, lg, k + 1, Grow(img, i + 1)[i := words[keys[k]]])
  {
    hide Pow2, Index;
    var i := Index(keys[k], lg);
    var r := Grow(img, i + 1)[i := words[keys[k]]];
    forall t | 0 <= t < k + 1
      ensures Index(keys[t], lg) < |r| && r[Index(keys[t], lg)] == words[keys[t]]
    {
      if t < k {
        IndexInjective(keys[t], keys[k], lg);
        assert Grow(img, i + 1)[Index(keys[t], lg)] == img[Index(keys[t], lg)];
      }
    }
    forall j | 0 <= j < |r|
      ensures r[j] == 0 || Written(keys, lg, k + 1, j)
    {
      if j == i {
        assert Index(keys[k], lg) == j;
      } else if j < |img| && img[j] != 0 {
        var t :| 0 <= t < k && Index(keys[t], lg) == j;
      }
    }
  }

  /** Reading the lines from key k on loads the remaining words. */
  lemma {:induction false} ReadText(words: map<nat, word>, keys: seq<nat>, lg: nat, k: nat, img: seq<word>, i: nat)
    returns (out: seq<word>)
    requires lg <= 64 && Sorted(keys, words) && InWindow(keys, lg) && k <= |keys|
    requires forall j | 0 <= j < |keys| :: keys[j] in words
    requires Loaded(words, keys, lg, k, img) && (k > 0 ==> i == Index(keys[k - 1], lg) + 1)
    ensures ReadFrom(Text(words, keys, lg, k), img, i) == Some(out) && Loaded(words, keys, lg, |keys|, out)
    decreases |keys| - k
  {
    hide Pow2, ReadFrom, Hex, Hex8, Loaded, Sorted, InWindow, Text;
    if k == |keys| {
      EmptyText(words, keys, lg);
      ReadEmpty(img, i);
      out := img;
    } else {
      var at, w, rest := Index(keys[k], lg), words[keys[k]], Text(words, keys, lg, k + 1);
      IndexRange(keys[k], lg);
      LoadStep(words, keys, lg, k, img);
      var line := Hex8(w) + "\n" + rest;
      TextStep(words, keys, lg, k);
      if NeedsAddress(keys, lg, k) {
        ReadAddressLine(at, line, img, i);
      }
      ReadWordLine(w, rest, img, at);
      out := ReadText(words, keys, lg, k + 1, Grow(img, at + 1)[at := w], at + 1);
    }
  }

  /** Every index fits the 64-bit unsigned long of the reader. */
  lemma IndexRange(a: nat, lg: nat)
    requires lg <= 64
    ensures Index(a, lg) < Pow2(lg) && Index(a, lg) < ULONG
  {
    hide Pow2;
    Pow2Mono(lg, 64);
    Pow2Word();
    Pow2Add(32, 32);
  }

  lemma EmptyText(words: map<nat, word>, keys: seq<nat>, lg: nat)
    requires forall i | 0 <= i < |keys| :: keys[i] in words
    ensures Text(words, keys, lg, |keys|) == ""
  {
  }

  /** A word's line comes after an index line only at the start and where the index does not follow the one before. */
  lemma TextStep(words: map<nat, word>, keys: seq<nat>, lg: nat, k: nat)
    requires k < |keys| && forall i | 0 <= i < |keys| :: keys[i] in words
    ensures var line := Hex8(words[keys[k]]) + "\n" + Text(words, keys, lg, k + 1);
            Text(words, keys, lg, k) ==
            if k == 0 || keys[k] / 4 % Pow2(lg) != keys[k - 1] / 4 % Pow2(lg) + 1 then
              "@" + Hex(keys[k] / 4 % Pow2(lg)) + "\n" + line
            else line
  {
    hide Hex, Hex8, Pow2;
    var head := if NeedsAddress(keys, lg, k) then "@" + Hex(Index(keys[k], lg)) + "\n" else "";
    var rest := Text(words, keys, lg, k + 1);
    var w := Hex8(words[keys[k]]);
    assert head + w + "\n" + rest == head + (w + "\n" + rest);
    assert "" + (w + "\n" + rest) == w + "\n" + rest;
  }

  lemma ReadEmpty(img: seq<word>, i: nat)
    ensures ReadFrom("", img, i) == Some(img)
  {
  }

  /** The image a reader gets back holds exactly the allocated words: each at its own position, zero between and
      after them, in whole lines that stay inside the allocated range. */
  ghost predicate IsMemory(words: map<nat, word>, top: nat, img: seq<word>)
    requires top >= DDR_BASE && forall a | a in words :: a >= DDR_BASE
  {
    && |img| % 8 == 0 && 4 * |img| <= top - DDR_BASE
    && (forall a | a in words :: Position(a) < |img| && img[Position(a)] == words[a])
    && (forall j | 0 <= j < |img| && DDR_BASE + 4 * j !in words :: img[j] == 0)
  }

  /** Printing the words and reading the text back gives the memory they describe. */
  ghost predicate ReadsBack(words: map<nat, word>, top: nat, keys: seq<nat>, lg: nat)
    requires top >= DDR_BASE && (forall a | a in words :: a >= DDR_BASE) && Sorted(keys, words)
  {
    var r := ReadFrom(Text(words, keys, lg, 0), [], 0);
    r.Some? && IsMemory(words, top, PadLine(r.value))
  }

  /** What the reader gets, for any window. */
  lemma ReadWindow(words: map<nat, word>, top: nat, buffers: seq<Buffer>, keys: seq<nat>, lg: nat)
    returns (out: seq<word>)
    requires LaidOut(words, top, buffers) && Sorted(keys, words) && lg <= 64 && top - DDR_BASE <= 4 * Pow2(lg)
    ensures top >= DDR_BASE && forall a | a in words :: a >= DDR_BASE && a % 4 == 0 && a + 4 <= top
    ensures InWindow(keys, lg)
    ensures ReadFrom(Text(words, keys, lg, 0), [], 0) == Some(out) && Loaded(words, keys, lg, |keys|, out)
  {
    KeysBelow(words, top, buffers);
    KeysInWindow(words, top, buffers, keys, lg);
    hide Pow2, Text, ReadFrom;
    out := ReadText(words, keys, lg, 0, [], 0);
  }

  /** Every laid-out image that passes the size assertion survives being printed and read back. */
  lemma ImageRoundTrip(words: map<nat, word>, top: nat, buffers: seq<Buffer>, keys: seq<nat>, lg: nat)
    requires LaidOut(words, top, buffers) && Sorted(keys, words)
    requires lg <= 26 && top - DDR_BASE <= 4 * Pow2(lg)
    ensures forall a | a in words :: a >= DDR_BASE
    ensures ReadsBack(words, top, keys, lg)
  {
    hide Pow2, Text, ReadFrom, IsMemory, Loaded;
    var out := ReadWindow(words, top, buffers, keys, lg);
    LoadedIsMemory(words, top, keys, lg, out);
  }

  lemma {:induction false} ExtentPositions(keys: seq<nat>, lg: nat, k: nat, p: nat)
    requires k <= |keys| && forall t | 0 <= t < k :: Index(keys[t], lg) <= p
    ensures Extent(keys, lg, k) <= p + 1
  {
    if k > 0 {
      ExtentPositions(keys, lg, k - 1, p);
    }
  }

  lemma LoadedIsMemory(words: map<nat, word>, top: nat, keys: seq<nat>, lg: nat, out: seq<word>)
    requires lg <= 26 && InWindow(keys, lg)
    requires top >= DDR_BASE && top % 32 == 0 && Sorted(keys, words)
    requires forall a | a in words :: DDR_BASE <= a && a % 4 == 0 && a + 4 <= top
    requires Loaded(words, keys, lg, |keys|, out)
    ensures IsMemory(words, top, PadLine(out))
  {
    hide Index, Pow2;
    var img := PadLine(out);
    PadKeeps(out);
    hide PadLine;
    forall t | 0 <= t < |keys|
      ensures Index(keys[t], lg) == Position(keys[t])
    {
      IndexIsPosition(keys[t], lg);
    }
    if keys != [] {
      LineRoom(top, keys[|keys| - 1]);
      ExtentPositions(keys, lg, |keys|, Position(keys[|keys| - 1]));
      RoundOrder(|out|, Position(keys[|keys| - 1]) + 1);
    }
    hide Position;
    forall a | a in words
      ensures Position(a) < |img| && img[Position(a)] == words[a]
    {
      var t :| 0 <= t < |keys| && keys[t] == a;
      assert out[Index(keys[t], lg)] == words[keys[t]];
    }
    forall j | 0 <= j < |img| && DDR_BASE + 4 * j !in words
      ensures img[j] == 0
    {
      if j < |out| && Written(keys, lg, |keys|, j) {
        var t :| 0 <= t < |keys| && Index(keys[t], lg) == j;
        PositionInverse(keys[t], j);
        assert false;
      }
    }
  }

  lemma RoundOrder(m: nat, n: nat)
    requires m <= n
    ensures (m + 7) / 8 * 8 <= (n + 7) / 8 * 8
  {
  }

  // ----- windows past 2^26 words -----

  /** The address base, in words. */
  const BASE_WORDS: nat := 0x400_0000

  /** The allocated word at position q, or zero. */
  function WordAt(words: map<nat, word>, q: nat): word {
    if DDR_BASE + 4 * q in words then words[DDR_BASE + 4 * q] else 0
  }

  /** The position 2^26 words before position j, around a window of s words. */
  function Before(j: nat, s: nat): nat
    requires s > BASE_WORDS
  {
    (j + s - BASE_WORDS) % s
  }

  /** What a window of more than 2^26 words needs to read back all the same: the indices reach exactly to the last
      allocated line, and every word up to there equals the one 2^26 words before it around the window. */
  ghost predicate Rotates(words: map<nat, word>, top: nat, keys: seq<nat>, lg: nat)
    requires top >= DDR_BASE && (forall a | a in words :: a >= DDR_BASE) && Pow2(lg) > BASE_WORDS
  {
    var e := (Extent(keys, lg, |keys|) + 7) / 8 * 8;
    && 4 * e <= top - DDR_BASE
    && (forall a | a in words :: Position(a) < e)
    && (forall j: nat | j < e :: WordAt(words, j) == WordAt(words, Before(j, Pow2(lg))))
  }

  lemma WideWindow(lg: nat)
    requires 26 < lg
    ensures Pow2(lg) >= 2 * BASE_WORDS && Pow2(lg) % 8 == 0
  {
    hide Pow2;
    BaseWords(26);
    Pow2Succ(26);
    Pow2Mono(27, lg);
    Pow2Add(3, lg - 3);
    assert Pow2(3) == 8 by {
      Pow2Zero();
      Pow2Succ(0);
      Pow2Succ(1);
      Pow2Succ(2);
    }
  }

  /** In a wide window the mask keeps the base address's own bit: the index is 2^26 too large, modulo the window. */
  lemma WideIndex(a: nat, s: nat)
    requires s > BASE_WORDS && DDR_BASE <= a < DDR_BASE + 4 * s && a % 4 == 0
    ensures var i, p := a / 4 % s, Position(a);
            i == (if p + BASE_WORDS < s then p + BASE_WORDS else p + BASE_WORDS - s)
            && i < s && Before(i, s) == p && a == DDR_BASE + 4 * p && p < s
  {
    var p := Position(a);
    assert a / 4 == p + BASE_WORDS;
    if p + BASE_WORDS < s {
      DivMod(0, p + BASE_WORDS, s);
      DivMod(1, p, s);
    } else {
      DivMod(1, p + BASE_WORDS - s, s);
      DivMod(0, p, s);
    }
  }

  /** Before is the inverse of the index. */
  lemma BeforeInverse(j: nat, s: nat)
    requires s > BASE_WORDS && j < s
    ensures var p := Before(j, s); p < s && (DDR_BASE + 4 * p) / 4 % s == j
  {
    if j >= BASE_WORDS {
      DivMod(1, j - BASE_WORDS, s);
    } else {
      DivMod(0, j + s - BASE_WORDS, s);
    }
    WideIndex(DDR_BASE + 4 * Before(j, s), s);
  }

  /** Every word the reader gets is the one 2^26 words before it. */
  lemma LoadedRotated(words: map<nat, word>, keys: seq<nat>, lg: nat, out: seq<word>, j: nat)
    requires 26 < lg && Sorted(keys, words) && InWindow(keys, lg) && Pow2(lg) > BASE_WORDS
    requires Loaded(words, keys, lg, |keys|, out) && j < |PadLine(out)| && j < Pow2(lg)
    ensures PadLine(out)[j] == WordAt(words, Before(j, Pow2(lg)))
  {
    hide Pow2, PadLine, Before;
    var s := Pow2(lg);
    PadKeeps(out);
    BeforeInverse(j, s);
    var p := Before(j, s);
    if DDR_BASE + 4 * p in words {
      var t :| 0 <= t < |keys| && keys[t] == DDR_BASE + 4 * p;
      assert Index(keys[t], lg) == j;
    } else {
      forall t | 0 <= t < |keys|
        ensures Index(keys[t], lg) != j
      {
        WideIndex(keys[t], s);
        assert keys[t] in words;
      }
    }
  }

  lemma {:induction false} ExtentWindow(keys: seq<nat>, lg: nat, k: nat)
    requires k <= |keys|
    ensures Extent(keys, lg, k) <= Pow2(lg)
  {
    hide Pow2;
    if k > 0 {
      ExtentWindow(keys, lg, k - 1);
    }
  }

  lemma PadWithin(n: nat, s: nat)
    requires n <= s && s % 8 == 0
    ensures (n + 7) / 8 * 8 <= s
  {
  }

  /** The exact condition for a window of more than 2^26 words. */
  lemma WideWindowReads(words: map<nat, word>, top: nat, buffers: seq<Buffer>, keys: seq<nat>, lg: nat)
    requires LaidOut(words, top, buffers) && Sorted(keys, words)
    requires 26 < lg <= 64 && top - DDR_BASE <= 4 * Pow2(lg)
    ensures top >= DDR_BASE && Pow2(lg) > BASE_WORDS && forall a | a in words :: a >= DDR_BASE
    ensures ReadsBack(words, top, keys, lg) <==> Rotates(words, top, keys, lg)
  {
    hide Pow2, Text, ReadFrom, LaidOut, PadLine, Before, Loaded, Index;
    WideWindow(lg);
    var out := ReadWindow(words, top, buffers, keys, lg);
    var img, e := PadLine(out), (Extent(keys, lg, |keys|) + 7) / 8 * 8;
    PadKeeps(out);
    ExtentWindow(keys, lg, |keys|);
    PadWithin(Extent(keys, lg, |keys|), Pow2(lg));
    assert |img| == e by {
      LoadedLength(words, keys, lg, out);
    }
    forall j: nat | j < e
      ensures img[j] == WordAt(words, Before(j, Pow2(lg)))
    {
      LoadedRotated(words, keys, lg, out, j);
    }
    MemoryIff(words, top, img);
  }

  lemma LoadedLength(words: map<nat, word>, keys: seq<nat>, lg: nat, out: seq<word>)
    requires (forall i | 0 <= i < |keys| :: keys[i] in words) && Loaded(words, keys, lg, |keys|, out)
    ensures |out| == Extent(keys, lg, |keys|)
  {
  }

  /** IsMemory, position by position. */
  lemma MemoryIff(words: map<nat, word>, top: nat, img: seq<word>)
    requires top >= DDR_BASE && |img| % 8 == 0
    requires forall a | a in words :: a >= DDR_BASE && a % 4 == 0
    ensures IsMemory(words, top, img) <==>
              && 4 * |img| <= top - DDR_BASE
              && (forall a | a in words :: Position(a) < |img|)
              && forall j: nat | j < |img| :: WordAt(words, j) == img[j]
  {
    hide WordAt, Position;
    forall j: nat | j < |img|
      ensures DDR_BASE + 4 * j in words ==> WordAt(words, j) == words[DDR_BASE + 4 * j] && Position(DDR_BASE + 4 * j) == j
      ensures DDR_BASE + 4 * j !in words ==> WordAt(words, j) == 0
    {
      AtPosition(words, j);
    }
    forall a | a in words
      ensures a == DDR_BASE + 4 * Position(a) && WordAt(words, Position(a)) == words[a]
    {
      PositionInverse(a, Position(a));
      AtPosition(words, Position(a));
    }
  }

  lemma AtPosition(words: map<nat, word>, j: nat)
    ensures DDR_BASE + 4 * j in words ==> WordAt(words, j) == words[DDR_BASE + 4 * j]
    ensures DDR_BASE + 4 * j !in words ==> WordAt(words, j) == 0
    ensures Position(DDR_BASE + 4 * j) == j
  {
  }

  lemma {:induction false} ExtentReaches(keys: seq<nat>, lg: nat, k: nat, t: nat)
    requires t < k <= |keys|
    ensures Extent(keys, lg, k) > Index(keys[t], lg)
  {
    if t < k - 1 {
      ExtentReaches(keys, lg, k - 1, t);
    }
  }

  /** As long as no address reaches past the window's own size, an image with anything in it, tightly laid out, does
      not survive a wide window: it comes back 2^26 words too far. */
  lemma WindowIsTight(words: map<nat, word>, top: nat, buffers: seq<Buffer>, keys: seq<nat>, lg: nat)
    requires LaidOut(words, top, buffers) && Sorted(keys, words) && Tight(words, top) && words != map[]
    requires 26 < lg <= 64 && top <= 4 * Pow2(lg)
    ensures forall a | a in words :: a >= DDR_BASE
    ensures !ReadsBack(words, top, keys, lg)
  {
    hide Pow2, LaidOut, ReadsBack, Index, Extent;
    WideWindowReads(words, top, buffers, keys, lg);
    KeysBelow(words, top, buffers);
    var a :| a in words && top < a + 36;
    var t :| 0 <= t < |keys| && keys[t] == a;
    ExtentReaches(keys, lg, |keys|, t);
    LowIndex(a, lg);
  }

  lemma LowIndex(a: nat, lg: nat)
    requires DDR_BASE <= a && a + 4 <= 4 * Pow2(lg) && a % 4 == 0
    ensures Index(a, lg) == Position(a) + BASE_WORDS
  {
    hide Pow2;
    DivMod(0, a / 4, Pow2(lg));
  }

  /** For every tightly laid-out image and every window the size assertion admits: read-back is right exactly when
      the window has at most 2^26 words, or nothing was allocated, or the addresses wrap around the window and
      the words happen to repeat with the rotation. */
  lemma WindowIsExact(words: map<nat, word>, top: nat, buffers: seq<Buffer>, keys: seq<nat>, lg: nat)
    requires LaidOut(words, top, buffers) && Sorted(keys, words) && Tight(words, top)
    requires lg <= 64 && top - DDR_BASE <= 4 * Pow2(lg)
    ensures forall a | a in words :: a >= DDR_BASE
    ensures lg > 26 ==> Pow2(lg) > BASE_WORDS
    ensures ReadsBack(words, top, keys, lg) <==>
              lg <= 26 || words == map[] || (top > 4 * Pow2(lg) && Rotates(words, top, keys, lg))
  {
    hide Pow2, LaidOut, ReadsBack, Rotates, Tight;
    if lg <= 26 {
      ImageRoundTrip(words, top, buffers, keys, lg);
    } else {
      WideWindowReads(words, top, buffers, keys, lg);
      if words == map[] {
        NothingRotates(words, top, keys, lg);
      } else if top <= 4 * Pow2(lg) {
        WindowIsTight(words, top, buffers, keys, lg);
      }
    }
  }

  lemma NothingRotates(words: map<nat, word>, top: nat, keys: seq<nat>, lg: nat)
    requires top >= DDR_BASE && words == map[] && Sorted(keys, words) && Pow2(lg) > BASE_WORDS
    ensures Rotates(words, top, keys, lg)
  {
  }

  /** The last case is real: a window filled to the brim with one value reads back whatever its size. */
  lemma FullWindowRotates(words: map<nat, word>, top: nat, keys: seq<nat>, lg: nat, x: word)
    requires 26 < lg <= 64 && top == DDR_BASE + 4 * Pow2(lg) && Sorted(keys, words)
    requires forall p: nat | p < Pow2(lg) :: DDR_BASE + 4 * p in words && WordAt(words, p) == x
    requires forall a | a in words :: DDR_BASE <= a < top && a % 4 == 0
    ensures Pow2(lg) > BASE_WORDS && Rotates(words, top, keys, lg)
  {
    hide Pow2, Index, Extent, Before;
    WideWindow(lg);
    var s := Pow2(lg);
    FullExtent(words, keys, lg);
    forall j: nat | j < s
      ensures WordAt(words, j) == WordAt(words, Before(j, s))
    {
      BeforeInverse(j, s);
    }
  }

  /** Some word of a full window has the last index. */
  lemma FullExtent(words: map<nat, word>, keys: seq<nat>, lg: nat)
    requires Sorted(keys, words) && Pow2(lg) > BASE_WORDS
    requires forall p: nat | p < Pow2(lg) :: DDR_BASE + 4 * p in words
    ensures Extent(keys, lg, |keys|) == Pow2(lg)
  {
    hide Pow2, Extent, Before;
    var s := Pow2(lg);
    BeforeInverse(s - 1, s);
    var a := DDR_BASE + 4 * Before(s - 1, s);
    var t :| 0 <= t < |keys| && keys[t] == a;
    ExtentReaches(keys, lg, |keys|, t);
    ExtentWindow(keys, lg, |keys|);
  }

  lemma PadKeeps(out: seq<word>)
    ensures |PadLine(out)| == (|out| + 7) / 8 * 8 >= |out| && |PadLine(out)| % 8 == 0
    ensures forall j | 0 <= j < |PadLine(out)| :: PadLine(out)[j] == if j < |out| then out[j] else 0
  {
  }

  lemma PositionInverse(a: nat, j: nat)
    requires a >= DDR_BASE && a % 4 == 0 && Position(a) == j
    ensures a == DDR_BASE + 4 * j
  {
  }

  lemma LineRoom(top: nat, a: nat)
    requires top % 32 == 0 && a >= DDR_BASE && a % 4 == 0 && a + 4 <= top
    ensures 4 * ((Position(a) + 1 + 7) / 8 * 8) <= top - DDR_BASE
  {
  }

  lemma KeysInWindow(words: map<nat, word>, top: nat, buffers: seq<Buffer>, keys: seq<nat>, lg: nat)
    requires LaidOut(words, top, buffers) && Sorted(keys, words) && top - DDR_BASE <= 4 * Pow2(lg)
    ensures InWindow(keys, lg)
  {
    hide Pow2, LaidOut;
    KeysBelow(words, top, buffers);
  }
}
