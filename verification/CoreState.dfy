/** CoreMark's state-machine benchmark: the input block, the token scanner, and the corruption passes. */
module CoreState {

  import opened IntegerFacts
  import opened MachineInts
  import opened NumberGrammar
  import opened Sequences

  // ---------------------------------------------------------------- one token

  /** The state and the number of bytes after reading one token of `text` from state `Scan(done)`. */
  function Consume(done: seq<byte>, text: seq<byte>): (State, nat)
    decreases |text|
  {
    if text == [] || Scan(done).Invalid? then (Scan(done), 0)
    else if text[0] == COMMA then (Scan(done), 1)
    else var r := Consume(done + [text[0]], text[1..]); (r.0, r.1 + 1)
  }

  /** `text` lies in `mem` from `at` on, with a NUL behind it. */
  ghost predicate TextAt(mem: array<byte>, at: nat, text: seq<byte>)
    reads mem
  {
    && at + |text| < mem.Length && mem[at + |text|] == 0
    && forall k :: 0 <= k < |text| ==> mem[at + k] == text[k] && text[k] != 0
  }

  lemma ScanOn(done: seq<byte>, c: byte)
    ensures Scan(done + [c]) == Next(Scan(done), c)
  {
    assert (done + [c])[..|done|] == done;
  }

  /** core_state_transition: reads one token, never past the NUL. */
  method Transition(mem: array<byte>, at: nat, ghost text: seq<byte>) returns (state: State, next: nat)
    requires TextAt(mem, at, text)
    ensures (state, next) == (Consume([], text).0, at + Consume([], text).1)
    ensures at <= next <= at + |text| && (|text| > 0 ==> next > at)
  {
    state := Start;
    next := at;
    ghost var done: seq<byte> := [];
    ghost var rest := text;
    while mem[next] != 0 && state != Invalid
      invariant at <= next <= at + |text| && rest == text[next - at..]
      invariant state == Scan(done) && (next == at ==> state == Start)
      invariant Consume([], text).0 == Consume(done, rest).0
      invariant Consume([], text).1 == (next - at) + Consume(done, rest).1
      decreases |text| - (next - at)
    {
      var symbol := mem[next];
      assert symbol == text[next - at] == rest[0];
      if symbol == COMMA {
        next := next + 1;
        return;
      }
      ScanOn(done, symbol);
      state := Next(state, symbol);
      done := done + [symbol];
      rest := rest[1..];
      next := next + 1;
    }
  }

  /** The token is a prefix of the text, up to a comma, and the state is the machine's verdict on it. */
  lemma {:induction false} ConsumeReads(done: seq<byte>, text: seq<byte>)
    ensures Consume(done, text).1 <= |text|
    ensures text != [] && !Scan(done).Invalid? ==> Consume(done, text).1 > 0
    ensures exists n: nat :: TokenOf(done, text, n)
    decreases |text|
  {
    if text == [] || Scan(done).Invalid? || text[0] == COMMA {
      assert done + text[..0] == done;
      assert TokenOf(done, text, 0);
    } else {
      var longer := done + [text[0]];
      ConsumeReads(longer, text[1..]);
      var n: nat :| TokenOf(longer, text[1..], n);
      assert done + text[..n + 1] == longer + text[1..][..n];
      assert TokenOf(done, text, n + 1);
    }
  }

  /**
   * The first `n` bytes are the token: no comma, judged by the machine, and ended by a comma, the NUL or an invalid
   * byte.
   */
  ghost predicate TokenOf(done: seq<byte>, text: seq<byte>, n: nat) {
    && n <= |text|
    && (forall k :: 0 <= k < n ==> text[k] != COMMA)
    && Consume(done, text).0 == Scan(done + text[..n])
    && (if n == |text| || Scan(done + text[..n]).Invalid? then Consume(done, text).1 == n
        else text[n] == COMMA && Consume(done, text).1 == n + 1)
  }

  // ---------------------------------------------------------------- all tokens

  /** The bytes of the first token, with the comma that ends it. */
  function TokenSize(text: seq<byte>): (n: nat)
    ensures n <= |text| && (text != [] ==> n > 0)
  {
    ConsumeReads([], text);
    Consume([], text).1
  }

  /** What each token takes of the text. */
  function Slices(text: seq<byte>): seq<seq<byte>>
    decreases |text|
  {
    if text == [] then [] else [text[..TokenSize(text)]] + Slices(text[TokenSize(text)..])
  }

  /** The state each token ends in. */
  function Verdicts(text: seq<byte>): seq<State>
    decreases |text|
  {
    if text == [] then [] else [Consume([], text).0] + Verdicts(text[TokenSize(text)..])
  }

  ghost predicate Sliced(states: seq<State>, slices: seq<seq<byte>>) {
    |states| == |slices| &&
    forall i {:trigger SliceState(states[i], slices[i])} :: 0 <= i < |slices| ==>
      slices[i] != [] && SliceState(states[i], slices[i])
  }

  lemma SlicedCons(s: State, slice: seq<byte>, states: seq<State>, slices: seq<seq<byte>>)
    requires Sliced(states, slices) && slice != [] && SliceState(s, slice)
    ensures Sliced([s] + states, [slice] + slices)
  {
    forall i | 0 <= i < |slices| + 1
      ensures ([slice] + slices)[i] != [] && SliceState(([s] + states)[i], ([slice] + slices)[i])
    {
      if i > 0 {
        assert SliceState(states[i - 1], slices[i - 1]);
      }
    }
  }

  lemma FlattenCons(slice: seq<byte>, slices: seq<seq<byte>>)
    ensures Flatten([slice] + slices) == slice + Flatten(slices)
  {
    assert ([slice] + slices)[1..] == slices;
  }

  /** The slices, laid end to end, are the text, and each verdict is the machine's on its own slice. */
  lemma {:induction false} SlicesPartition(text: seq<byte>)
    ensures Flatten(Slices(text)) == text && Sliced(Verdicts(text), Slices(text))
    decreases |text|
  {
    if text != [] {
      var n := TokenSize(text);
      SlicesPartition(text[n..]);
      SliceOf(text);
      SlicedCons(Consume([], text).0, text[..n], Verdicts(text[n..]), Slices(text[n..]));
      FlattenCons(text[..n], Slices(text[n..]));
      assert text == text[..n] + text[n..];
    }
  }

  /** The scan over the block: one verdict for each token of the text before the NUL. */
  method ScanBlock(mem: array<byte>, ghost text: seq<byte>) returns (states: seq<State>)
    requires TextAt(mem, 0, text)
    ensures states == Verdicts(text)
  {
    states := [];
    var p: nat := 0;
    ghost var rest, all := text, Gathered([], text);
    while mem[p] != 0
      invariant TextAt(mem, p, rest) && Gathered(states, rest) == all
      decreases |rest|
    {
      if rest == [] {
        assert false;
      }
      var state, next := Transition(mem, p, rest);
      GatheredNext(states, rest, state, next - p);
      states := states + [state];
      RestAt(mem, p, rest, next - p);
      rest := rest[next - p..];
      p := next;
    }
    NoRest(mem, p, rest);
    GatheredIs([], text);
  }

  /** The verdicts gathered so far, followed by those of the rest of the text. */
  function Gathered(states: seq<State>, text: seq<byte>): seq<State>
    decreases |text|
  {
    if text == [] then states
    else Gathered(states + [Consume([], text).0], text[TokenSize(text)..])
  }

  lemma {:induction false} GatheredIs(states: seq<State>, text: seq<byte>)
    ensures Gathered(states, text) == states + Verdicts(text)
    decreases |text|
  {
    if text != [] {
      var v, rest := Consume([], text).0, text[TokenSize(text)..];
      GatheredIs(states + [v], rest);
      AppendOne(states, v, Verdicts(rest));
    }
  }

  lemma AppendOne<T>(a: seq<T>, x: T, b: seq<T>)
    ensures (a + [x]) + b == a + ([x] + b)
  {
  }

  lemma GatheredNext(states: seq<State>, rest: seq<byte>, state: State, n: nat)
    requires rest != [] && (state, n) == Consume([], rest)
    ensures n <= |rest| && Gathered(states, rest) == Gathered(states + [state], rest[n..])
  {
    assert n == TokenSize(rest);
  }

  lemma RestAt(mem: array<byte>, at: nat, text: seq<byte>, n: nat)
    requires TextAt(mem, at, text) && n <= |text|
    ensures TextAt(mem, at + n, text[n..])
  {
    forall k | 0 <= k < |text[n..]|
      ensures mem[at + n + k] == text[n..][k] && text[n..][k] != 0
    {
      TextByte(mem, at, text, n + k);
    }
  }

  lemma NoRest(mem: array<byte>, at: nat, text: seq<byte>)
    requires TextAt(mem, at, text)
    ensures text != [] ==> mem[at] != 0
  {
    if text != [] {
      TextByte(mem, at, text, 0);
    }
  }

  lemma TextByte(mem: array<byte>, at: nat, text: seq<byte>, k: nat)
    requires TextAt(mem, at, text) && k < |text|
    ensures mem[at + k] == text[k] != 0
  {
  }

  /** A slice is a token, possibly with the comma that ended it. */
  ghost predicate SliceState(s: State, slice: seq<byte>) {
    exists n: nat :: n <= |slice| && s == Scan(slice[..n]) &&
      (n == |slice| || (n + 1 == |slice| && slice[n] == COMMA))
  }

  lemma SliceOf(rest: seq<byte>)
    requires rest != []
    ensures Consume([], rest).1 <= |rest|
    ensures SliceState(Consume([], rest).0, rest[..Consume([], rest).1])
  {
    ConsumeReads([], rest);
    var n: nat :| TokenOf([], rest, n);
    var slice := rest[..Consume([], rest).1];
    assert [] + rest[..n] == rest[..n];
    assert slice[..n] == rest[..n];
  }

  // ---------------------------------------------------------------- the corruption passes

  /** Exclusive or, bit by bit. */
  function Xor(x: nat, y: nat): nat
    decreases x + y
  {
    if x == 0 && y == 0 then 0 else (x % 2 + y % 2) % 2 + 2 * Xor(x / 2, y / 2)
  }

  lemma XorDigits(x: nat, y: nat)
    ensures Xor(x, y) % 2 == (x % 2 + y % 2) % 2 && Xor(x, y) / 2 == Xor(x / 2, y / 2)
  {
  }

  lemma Parities(a: nat, b: nat)
    ensures ((a % 2 + b % 2) % 2 + b % 2) % 2 == a % 2
  {
  }

  lemma {:induction false} XorTwice(x: nat, y: nat)
    ensures Xor(Xor(x, y), y) == x
    decreases x + y
  {
    if x != 0 || y != 0 {
      XorTwice(x / 2, y / 2);
      XorDigits(x, y);
      XorDigits(Xor(x, y), y);
      Parities(x, y);
    }
  }

  lemma {:induction false} XorBelow(x: nat, y: nat, b: nat)
    requires x < Pow2(b) && y < Pow2(b)
    ensures Xor(x, y) < Pow2(b)
    decreases b
  {
    if b > 0 && (x != 0 || y != 0) {
      XorBelow(x / 2, y / 2, b - 1);
    }
  }

  function XorByte(x: byte, seed: byte): byte {
    Bytes();
    XorBelow(x, seed, 8);
    Xor(x, seed)
  }

  lemma Bytes()
    ensures Pow2(8) == 0x100
  {
    assert Pow2(3) == 8 && Pow2(6) == 64;
  }

  function Flip(x: byte, seed: byte): byte {
    if x == COMMA then x else XorByte(x, seed)
  }

  /** Twice the same pass gives a byte back exactly when the first pass does not turn it into a comma. */
  lemma FlipTwice(x: byte, seed: byte)
    ensures Flip(Flip(x, seed), seed) == x <==> x == COMMA || XorByte(x, seed) != COMMA
  {
    XorTwice(x, seed);
  }

  lemma {:induction false} XorZero(x: nat)
    ensures Xor(x, 0) == x
  {
    if x > 0 {
      XorZero(x / 2);
    }
  }

  /** A minus sign under the seed 1: the first pass makes it a comma, which the second leaves. */
  lemma CommaStays()
    ensures Flip(0x2d, 1) == COMMA && Flip(Flip(0x2d, 1), 1) != 0x2d
  {
    XorZero(22);
    XorDigits(0x2d, 1);
  }

  /** What one pass makes of a block: a bit mask over every `step`-th byte that is not a comma. */
  ghost function Passed(block: seq<byte>, seed: byte, step: nat): (r: seq<byte>)
    requires step >= 1
    ensures |r| == |block|
  {
    seq(|block|, q requires 0 <= q < |block| => if q % step == 0 then Flip(block[q], seed) else block[q])
  }

  /** One pass over every `step`-th byte. */
  method Corrupt(mem: array<byte>, seed: byte, step: nat)
    requires step >= 1
    modifies mem
    ensures mem[..] == Passed(old(mem[..]), seed, step)
  {
    var p: nat := 0;
    ghost var n: nat := 0;
    while p < mem.Length
      invariant p == n * step
      invariant forall q :: 0 <= q < mem.Length ==>
        mem[q] == if q < p && q % step == 0 then Flip(old(mem[q]), seed) else old(mem[q])
    {
      if mem[p] != COMMA {
        mem[p] := XorByte(mem[p], seed);
      }
      NextVisited(n, step);
      p := p + step;
      n := n + 1;
    }
  }

  lemma NextVisited(n: nat, step: nat)
    requires step >= 1
    ensures (n + 1) * step == n * step + step
    ensures forall q :: n * step <= q < n * step + step ==> (q % step == 0 <==> q == n * step)
  {
    forall q | n * step <= q < n * step + step
      ensures q % step == 0 <==> q == n * step
    {
      Residue(n, step, q - n * step);
    }
  }

  lemma Residue(n: nat, step: nat, r: nat)
    requires r < step
    ensures (n * step + r) % step == r
  {
    DivMod(n, step, r);
  }

  // ---------------------------------------------------------------- the input block

  const INT_PATTERNS: seq<string> := ["5012", "1234", "-874", "+122"]
  const FLOAT_PATTERNS: seq<string> := ["35.54400", ".1234500", "-110.700", "+0.64400"]
  const SCI_PATTERNS: seq<string> := ["5.500e+3", "-.123e-2", "-87e+832", "+0.6e-12"]
  const ERR_PATTERNS: seq<string> := ["T0.3e-1F", "-T.T++Tq", "1T3.4e4z", "34.0e-T^"]

  predicate Printable(s: string) {
    forall i :: 0 <= i < |s| ==> 0 < s[i] as int < 0x80
  }

  function Ascii(s: string): (r: seq<byte>)
    requires Printable(s)
    ensures |r| == |s| && forall i :: 0 <= i < |r| ==> r[i] != 0
  {
    seq(|s|, i requires 0 <= i < |s| => s[i] as int)
  }

  /** The pattern a seed selects: its low three bits choose the kind, the next two the variant. */
  function Pattern(seed: int16): (r: seq<byte>)
    ensures 4 <= |r| <= 8 && forall i :: 0 <= i < |r| ==> r[i] != 0
  {
    var kind: int := seed as int % 8;
    var k: int := seed as int / 8 % 4;
    if kind <= 2 then Ascii(INT_PATTERNS[k])
    else if kind <= 4 then Ascii(FLOAT_PATTERNS[k])
    else if kind <= 6 then Ascii(SCI_PATTERNS[k])
    else Ascii(ERR_PATTERNS[k])
  }

  /** A choice of patterns: at most eight bytes each, and never a NUL. */
  ghost predicate IsTable(pick: int16 -> seq<byte>) {
    forall seed {:trigger pick(seed)} :: 0 < |pick(seed)| <= 8 &&
      forall i :: 0 <= i < |pick(seed)| ==> pick(seed)[i] != 0
  }

  lemma PatternsAreTable()
    ensures IsTable(Pattern)
  {
  }

  /** The state after four, and after eight bytes. */
  lemma ScanFour(t: seq<byte>)
    requires |t| == 4
    ensures Scan(t) == Next(Next(Next(Next(Start, t[0]), t[1]), t[2]), t[3])
  {
    ScanOn([], t[0]);
    ScanOn([t[0]], t[1]);
    ScanOn([t[0], t[1]], t[2]);
    ScanOn([t[0], t[1], t[2]], t[3]);
    assert [] + [t[0]] == [t[0]] && [t[0]] + [t[1]] == [t[0], t[1]] && [t[0], t[1]] + [t[2]] == [t[0], t[1], t[2]];
    assert [t[0], t[1], t[2]] + [t[3]] == t;
  }

  lemma ScanEight(t: seq<byte>)
    requires |t| == 8
    ensures var s := Next(Next(Next(Next(Start, t[0]), t[1]), t[2]), t[3]);
      Scan(t) == Next(Next(Next(Next(s, t[4]), t[5]), t[6]), t[7])
  {
    ScanOn(t[..4], t[4]);
    ScanOn(t[..5], t[5]);
    ScanOn(t[..6], t[6]);
    ScanOn(t[..7], t[7]);
    assert t[..4] + [t[4]] == t[..5] && t[..5] + [t[5]] == t[..6] && t[..6] + [t[6]] == t[..7] && t[..7] + [t[7]] == t;
    ScanFour(t[..4]);
  }

  lemma IntsScan(k: nat)
    requires k < 4
    ensures Scan(Ascii(INT_PATTERNS[k])) == Int
  {
    var t := Ascii(INT_PATTERNS[k]);
    ScanFour(t);
    match k
    case 0 =>
      assert INT_PATTERNS[0] == "5012";
      assert t == [0x35, 0x30, 0x31, 0x32];
    case 1 =>
      assert INT_PATTERNS[1] == "1234";
      assert t == [0x31, 0x32, 0x33, 0x34];
    case 2 =>
      assert INT_PATTERNS[2] == "-874";
      assert t == [0x2d, 0x38, 0x37, 0x34];
    case 3 =>
      assert INT_PATTERNS[3] == "+122";
      assert t == [0x2b, 0x31, 0x32, 0x32];
  }

  lemma FloatsScan(k: nat)
    requires k < 4
    ensures Scan(Ascii(FLOAT_PATTERNS[k])) == Float
  {
    var t := Ascii(FLOAT_PATTERNS[k]);
    ScanEight(t);
    match k
    case 0 =>
      assert FLOAT_PATTERNS[0] == "35.54400";
      assert t == [0x33, 0x35, 0x2e, 0x35, 0x34, 0x34, 0x30, 0x30];
    case 1 =>
      assert FLOAT_PATTERNS[1] == ".1234500";
      assert t == [0x2e, 0x31, 0x32, 0x33, 0x34, 0x35, 0x30, 0x30];
    case 2 =>
      assert FLOAT_PATTERNS[2] == "-110.700";
      assert t == [0x2d, 0x31, 0x31, 0x30, 0x2e, 0x37, 0x30, 0x30];
    case 3 =>
      assert FLOAT_PATTERNS[3] == "+0.64400";
      assert t == [0x2b, 0x30, 0x2e, 0x36, 0x34, 0x34, 0x30, 0x30];
  }

  lemma SciScan(k: nat)
    requires k < 4
    ensures Scan(Ascii(SCI_PATTERNS[k])) == (if k == 2 then Invalid else Scientific)
  {
    var t := Ascii(SCI_PATTERNS[k]);
    ScanEight(t);
    match k
    case 0 =>
      assert SCI_PATTERNS[0] == "5.500e+3";
      assert t == [0x35, 0x2e, 0x35, 0x30, 0x30, 0x65, 0x2b, 0x33];
    case 1 =>
      assert SCI_PATTERNS[1] == "-.123e-2";
      assert t == [0x2d, 0x2e, 0x31, 0x32, 0x33, 0x65, 0x2d, 0x32];
    case 2 =>
      assert SCI_PATTERNS[2] == "-87e+832";
      assert t == [0x2d, 0x38, 0x37, 0x65, 0x2b, 0x38, 0x33, 0x32];
    case 3 =>
      assert SCI_PATTERNS[3] == "+0.6e-12";
      assert t == [0x2b, 0x30, 0x2e, 0x36, 0x65, 0x2d, 0x31, 0x32];
  }

  lemma ErrScan(k: nat)
    requires k < 4
    ensures Scan(Ascii(ERR_PATTERNS[k])) == Invalid
  {
    var t := Ascii(ERR_PATTERNS[k]);
    ScanEight(t);
    match k
    case 0 =>
      assert ERR_PATTERNS[0] == "T0.3e-1F";
      assert t == [0x54, 0x30, 0x2e, 0x33, 0x65, 0x2d, 0x31, 0x46];
    case 1 =>
      assert ERR_PATTERNS[1] == "-T.T++Tq";
      assert t == [0x2d, 0x54, 0x2e, 0x54, 0x2b, 0x2b, 0x54, 0x71];
    case 2 =>
      assert ERR_PATTERNS[2] == "1T3.4e4z";
      assert t == [0x31, 0x54, 0x33, 0x2e, 0x34, 0x65, 0x34, 0x7a];
    case 3 =>
      assert ERR_PATTERNS[3] == "34.0e-T^";
      assert t == [0x33, 0x34, 0x2e, 0x30, 0x65, 0x2d, 0x54, 0x5e];
  }

  /**
   * Each pattern is judged to be of its kind, but for the third scientific one: it has no point, and the machine takes
   * an exponent only after one.
   */
  lemma PatternKinds(seed: int16)
    ensures var kind, k := seed as int % 8, seed as int / 8 % 4;
      Scan(Pattern(seed)) ==
      if kind <= 2 then Int
      else if kind <= 4 then Float
      else if kind <= 6 && k != 2 then Scientific
      else Invalid
  {
    var k := seed as int / 8 % 4;
    IntsScan(k);
    FloatsScan(k);
    SciScan(k);
    ErrScan(k);
  }

  /** The first `n` patterns after `seed`, each followed by a comma. */
  function Chunks(pick: int16 -> seq<byte>, seed: int16, n: nat): seq<byte> {
    if n == 0 then [] else Chunks(pick, seed, n - 1) + pick(S16(seed as int + n)) + [COMMA]
  }

  lemma {:induction false} ChunksPrintable(pick: int16 -> seq<byte>, seed: int16, n: nat)
    requires IsTable(pick)
    ensures forall i :: 0 <= i < |Chunks(pick, seed, n)| ==> Chunks(pick, seed, n)[i] != 0
  {
    if n > 0 {
      ChunksPrintable(pick, seed, n - 1);
      assert |pick(S16(seed as int + n))| <= 8;
    }
  }

  lemma NextSeed(seed: int16, n: nat)
    ensures S16(S16(seed as int + n) as int + 1) == S16(seed as int + n + 1)
  {
    S16Keeps(seed as int + n);
    S16Congruent(S16(seed as int + n) as int + 1, seed as int + n + 1);
  }

  method WriteChunk(p: array<byte>, total: nat, buf: seq<byte>)
    requires total + |buf| < p.Length
    modifies p
    ensures forall q :: 0 <= q < p.Length ==>
      p[q] == if total <= q < total + |buf| then buf[q - total] else if q == total + |buf| then COMMA else old(p[q])
  {
    var i: nat := 0;
    while i < |buf|
      invariant i <= |buf|
      invariant forall q :: 0 <= q < p.Length ==> p[q] == if total <= q < total + i then buf[q - total] else old(p[q])
    {
      p[total + i] := buf[i];
      i := i + 1;
    }
    p[total + i] := COMMA;
  }

  ghost predicate Holds(p: array<byte>, text: seq<byte>)
    reads p
  {
    |text| <= p.Length && forall k :: 0 <= k < |text| ==> p[k] == text[k]
  }

  lemma ChunkHeld(p: array<byte>, text: seq<byte>, buf: seq<byte>)
    requires |text| + |buf| < p.Length && Holds(p, text)
    requires forall k :: 0 <= k < |buf| ==> p[|text| + k] == buf[k]
    requires p[|text| + |buf|] == COMMA
    ensures Holds(p, text + buf + [COMMA])
  {
    var all := text + buf + [COMMA];
    forall k | 0 <= k < |all|
      ensures p[k] == all[k]
    {
      if |text| <= k < |text| + |buf| {
        assert p[|text| + (k - |text|)] == buf[k - |text|];
      }
    }
  }

  /** The block is a text without NULs, at least two short of its length, and zeros behind. */
  ghost predicate Fresh(p: array<byte>, text: seq<byte>)
    reads p
  {
    |text| + 2 <= p.Length && TextAt(p, 0, text) && forall k :: |text| <= k < p.Length ==> p[k] == 0
  }

  /** The loop's variables: `n` chunks are written, and `buf` holds the next pattern unless nothing is chosen yet. */
  ghost predicate Filling(pick: int16 -> seq<byte>, seed0: int16, p: array<byte>, n: nat, total: nat, seed: int16,
                          buf: seq<byte>)
    reads p
  {
    && total == |Chunks(pick, seed0, n)| && Holds(p, Chunks(pick, seed0, n))
    && if buf == [] then n == 0 && seed == seed0
       else seed == S16(seed0 as int + n + 1) && buf == pick(seed)
  }

  /** One turn of the loop: write the chosen pattern with its comma, and choose the next. */
  method NextChunk(pick: int16 -> seq<byte>, seed0: int16, p: array<byte>, ghost n: nat, total: nat, seed: int16,
                   buf: seq<byte>)
    returns (total': nat, seed': int16, buf': seq<byte>, ghost n': nat)
    requires IsTable(pick) && total + |buf| < p.Length && Filling(pick, seed0, p, n, total, seed, buf)
    modifies p
    ensures Filling(pick, seed0, p, n', total', seed', buf') && buf' != []
    ensures total' == if buf == [] then total else total + |buf| + 1
  {
    total', n' := total, n;
    if |buf| > 0 {
      ghost var text := Chunks(pick, seed0, n);
      WriteChunk(p, total, buf);
      ChunkHeld(p, text, buf);
      total' := total + |buf| + 1;
      n' := n + 1;
      NextSeed(seed0, n + 1);
    } else {
      SeedItself(seed0);
    }
    seed' := S16(seed as int + 1);
    buf' := pick(seed');
  }

  lemma SeedItself(seed: int16)
    ensures S16(seed as int) == seed
  {
  }

  method ZeroFill(p: array<byte>, total: nat, ghost text: seq<byte>)
    requires total == |text| <= p.Length && Holds(p, text)
    modifies p
    ensures Holds(p, text) && forall k :: total <= k < p.Length ==> p[k] == 0
  {
    var fill := total;
    while fill < p.Length
      invariant total <= fill <= p.Length
      invariant Holds(p, text) && forall k :: total <= k < fill ==> p[k] == 0
    {
      p[fill] := 0;
      fill := fill + 1;
    }
  }

  /**
   * core_init_state: as many patterns as fit before the last byte, each with its comma, then zeros. At least the
   * last two bytes are zero.
   */
  method InitState(pick: int16 -> seq<byte>, seed0: int16, p: array<byte>) returns (ghost n: nat)
    requires IsTable(pick) && 2 <= p.Length < 0xffff_fff0
    modifies p
    ensures Fresh(p, Chunks(pick, seed0, n))
    ensures p.Length > 2 ==>
      |Chunks(pick, seed0, n)| + |pick(S16(seed0 as int + n + 1))| + 1 >= p.Length - 1
  {
    var size := p.Length - 1;
    var seed := seed0;
    var total: nat := 0;
    var buf: seq<byte> := [];
    n := 0;
    while total + |buf| + 1 < size
      invariant total <= size - 1 && Filling(pick, seed0, p, n, total, seed, buf)
      invariant p.Length > 2 && buf == [] ==> total == 0
      decreases p.Length - total, if buf == [] then 1 else 0
    {
      total, seed, buf, n := NextChunk(pick, seed0, p, n, total, seed, buf);
    }
    ChunksPrintable(pick, seed0, n);
    ZeroFill(p, total, Chunks(pick, seed0, n));
  }

  // ---------------------------------------------------------------- the benchmark

  /** The number of bytes before the first NUL, or all of them. */
  function FirstNul(s: seq<byte>): (n: nat)
    ensures n <= |s| && (n < |s| ==> s[n] == 0) && forall k :: 0 <= k < n ==> s[k] != 0
  {
    if s == [] || s[0] == 0 then 0 else 1 + FirstNul(s[1..])
  }

  /** What a scan reads of a block. */
  ghost function TextOf(block: seq<byte>): seq<byte> {
    block[..FirstNul(block)]
  }

  /** With a step of two or more, one of the last two zeros is not visited. */
  lemma NulSurvives(block: seq<byte>, seed: byte, step: nat)
    requires step >= 2 && |block| >= 2 && block[|block| - 1] == 0 && block[|block| - 2] == 0
    ensures FirstNul(Passed(block, seed, step)) < |block|
  {
    var last, now := |block| - 1, Passed(block, seed, step);
    if last % step == 0 {
      NotBoth(last, step);
      assert now[last - 1] == 0;
    } else {
      assert now[last] == 0;
    }
  }

  lemma NotBoth(x: nat, step: nat)
    requires step >= 2 && x >= 1 && x % step == 0
    ensures (x - 1) % step != 0
  {
    CountStep(x - 1, step);
  }

  /** No visited byte is turned into a comma by the first pass. */
  ghost predicate NoNewComma(block: seq<byte>, seed: byte, step: nat)
    requires step >= 1
  {
    forall q :: 0 <= q < |block| && q % step == 0 ==> block[q] == COMMA || XorByte(block[q], seed) != COMMA
  }

  /** With equal seeds the second pass undoes the first exactly when no visited byte became a comma. */
  lemma RestoredIff(block: seq<byte>, seed: byte, step: nat)
    requires step >= 1
    ensures Passed(Passed(block, seed, step), seed, step) == block <==> NoNewComma(block, seed, step)
  {
    var after := Passed(Passed(block, seed, step), seed, step);
    forall q | 0 <= q < |block|
      ensures after[q] == block[q] <==> q % step != 0 || block[q] == COMMA || XorByte(block[q], seed) != COMMA
    {
      FlipTwice(block[q], seed);
    }
  }

  /**
   * core_bench_state on a fresh block: the verdicts of both scans, each inside the block, and the block after both
   * passes.
   */
  method BenchState(mem: array<byte>, seed1: byte, seed2: byte, step: nat, ghost text: seq<byte>)
    returns (first: seq<State>, second: seq<State>)
    requires Fresh(mem, text) && step >= 2
    modifies mem
    ensures first == Verdicts(text) && second == Verdicts(TextOf(Passed(old(mem[..]), seed1, step)))
    ensures FirstNul(Passed(old(mem[..]), seed1, step)) < mem.Length
    ensures mem[..] == Passed(Passed(old(mem[..]), seed1, step), seed2, step)
    ensures seed1 == seed2 ==> (mem[..] == old(mem[..]) <==> NoNewComma(old(mem[..]), seed1, step))
  {
    ghost var was := mem[..];
    first := ScanBlock(mem, text);
    Corrupt(mem, seed1, step);
    NulSurvives(was, seed1, step);
    second := ScanBlock(mem, TextOf(mem[..]));
    Corrupt(mem, seed2, step);
    RestoredIff(was, seed1, step);
  }

  lemma {:induction false} ChunksStart(pick: int16 -> seq<byte>, seed: int16, n: nat)
    requires n >= 1 && |pick(S16(seed as int + 1))| > 0
    ensures |Chunks(pick, seed, n)| > 0 && Chunks(pick, seed, n)[0] == pick(S16(seed as int + 1))[0]
  {
    if n > 1 {
      ChunksStart(pick, seed, n - 1);
    } else {
      assert Chunks(pick, seed, 0) == [];
    }
  }

  lemma MinusPattern()
    ensures Pattern(16) == [0x2d, 0x38, 0x37, 0x34]
  {
    assert INT_PATTERNS[2] == "-874";
  }

  lemma StartsWithMinus(n: nat)
    requires |Chunks(Pattern, 15, n)| + |Pattern(S16(15 + n + 1))| + 1 >= 15
    ensures |Chunks(Pattern, 15, n)| > 0 && Chunks(Pattern, 15, n)[0] == 0x2d
  {
    MinusPattern();
    if n > 0 {
      ChunksStart(Pattern, 15, n);
    }
  }

  /** A fresh block that the two passes do not restore: its first byte is a minus sign and ends as a comma. */
  method BlockNotRestored() returns (mem: array<byte>, first: byte)
    ensures fresh(mem) && mem.Length == 16 && first == 0x2d && mem[0] == COMMA
  {
    mem := new byte[16](_ => 0);
    PatternsAreTable();
    ghost var n := InitState(Pattern, 15, mem);
    ghost var text := Chunks(Pattern, 15, n);
    StartsWithMinus(n);
    first := mem[0];
    CommaStays();
    var _, _ := BenchState(mem, 1, 1, 2, text);
  }
}
