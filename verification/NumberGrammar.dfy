/** The number formats CoreMark's state machine tells apart, as a grammar, and the machine's transition function. */
module NumberGrammar {

  import opened MachineInts

  const COMMA: byte := 0x2c
  const DOT: byte := 0x2e

  predicate IsDigit(c: byte) { 0x30 <= c <= 0x39 }

  predicate IsSign(c: byte) { c == 0x2b || c == 0x2d }

  predicate IsE(c: byte) { c == 0x45 || c == 0x65 }

  /** A byte is of at most one of these kinds. */
  lemma Kinds(c: byte)
    ensures IsDigit(c) ==> !IsSign(c) && !IsE(c) && c != DOT && c != COMMA
    ensures IsSign(c) ==> !IsE(c) && c != DOT && c != COMMA
    ensures IsE(c) ==> c != DOT && c != COMMA
  {
  }

  // ---------------------------------------------------------------- the grammar

  predicate Digits(t: seq<byte>, from: nat) {
    from <= |t| && forall i :: from <= i < |t| ==> IsDigit(t[i])
  }

  /** The position after an optional leading sign. */
  function First(t: seq<byte>): nat {
    if |t| > 0 && IsSign(t[0]) then 1 else 0
  }

  predicate OnlySign(t: seq<byte>) {
    |t| == 1 && IsSign(t[0])
  }

  predicate IsInt(t: seq<byte>) {
    First(t) < |t| && Digits(t, First(t))
  }

  /** A point at `k`, digits or nothing on either side. */
  predicate PointAt(t: seq<byte>, k: nat) {
    First(t) <= k < |t| && t[k] == DOT && Digits(t[..k], First(t)) && Digits(t, k + 1)
  }

  ghost predicate IsFloat(t: seq<byte>) {
    exists k: nat :: PointAt(t, k)
  }

  ghost predicate FloatE(t: seq<byte>) {
    |t| > 0 && IsFloat(t[..|t| - 1]) && IsE(t[|t| - 1])
  }

  ghost predicate FloatESign(t: seq<byte>) {
    |t| > 0 && FloatE(t[..|t| - 1]) && IsSign(t[|t| - 1])
  }

  /** A float, an E, a sign, and at least one digit. */
  ghost predicate IsScientific(t: seq<byte>) {
    exists m: nat :: ExponentFrom(t, m)
  }

  ghost predicate ExponentFrom(t: seq<byte>, m: nat) {
    m < |t| && FloatESign(t[..m]) && Digits(t, m)
  }

  // ---------------------------------------------------------------- the machine

  datatype State = Start | Invalid | S1 | S2 | Int | Float | Exponent | Scientific

  function Next(s: State, c: byte): State {
    match s
    case Start => if IsDigit(c) then Int else if IsSign(c) then S1 else if c == DOT then Float else Invalid
    case S1 => if IsDigit(c) then Int else if c == DOT then Float else Invalid
    case Int => if c == DOT then Float else if !IsDigit(c) then Invalid else Int
    case Float => if IsE(c) then S2 else if !IsDigit(c) then Invalid else Float
    case S2 => if IsSign(c) then Exponent else Invalid
    case Exponent => if IsDigit(c) then Scientific else Invalid
    case Scientific => if !IsDigit(c) then Invalid else Scientific
    case Invalid => Invalid
  }

  function Scan(t: seq<byte>): State {
    if t == [] then Start else Next(Scan(t[..|t| - 1]), t[|t| - 1])
  }

  /** What each state says about the text read so far. */
  ghost predicate Describes(s: State, t: seq<byte>) {
    && (s == Start <==> t == [])
    && (s == S1 <==> OnlySign(t))
    && (s == Int <==> IsInt(t))
    && (s == Float <==> IsFloat(t))
    && (s == S2 <==> FloatE(t))
    && (s == Exponent <==> FloatESign(t))
    && (s == Scientific <==> IsScientific(t))
  }

  // ---------------------------------------------------------------- one more byte

  lemma DigitsSnoc(u: seq<byte>, c: byte, from: nat)
    requires from <= |u|
    ensures Digits(u + [c], from) <==> Digits(u, from) && IsDigit(c)
  {
    var t := u + [c];
    assert t[|u|] == c;
    assert forall i :: 0 <= i < |u| ==> t[i] == u[i];
  }

  lemma IntSnoc(u: seq<byte>, c: byte)
    ensures IsInt(u + [c]) <==> IsDigit(c) && (u == [] || OnlySign(u) || IsInt(u))
    ensures OnlySign(u + [c]) <==> u == [] && IsSign(c)
  {
    var t := u + [c];
    Kinds(c);
    if u == [] {
      assert t == [c];
    } else {
      assert t[0] == u[0] && First(t) == First(u);
      DigitsSnoc(u, c, First(u));
    }
  }

  lemma FloatSnoc(u: seq<byte>, c: byte)
    ensures IsFloat(u + [c]) <==> (c == DOT && (u == [] || OnlySign(u) || IsInt(u))) || (IsDigit(c) && IsFloat(u))
  {
    var t := u + [c];
    Kinds(c);
    if k: nat :| PointAt(t, k) {
      PointBack(u, c, k);
    }
    if c == DOT && (u == [] || OnlySign(u) || IsInt(u)) {
      assert t[..|u|] == u;
      assert |u| > 0 ==> t[0] == u[0];
      assert PointAt(t, |u|);
    }
    if IsDigit(c) && IsFloat(u) {
      var k: nat :| PointAt(u, k);
      assert t[..k] == u[..k];
      DigitsSnoc(u, c, k + 1);
      assert PointAt(t, k);
    }
  }

  lemma PointBack(u: seq<byte>, c: byte, k: nat)
    requires PointAt(u + [c], k)
    ensures (c == DOT && (u == [] || OnlySign(u) || IsInt(u))) || (IsDigit(c) && IsFloat(u))
  {
    var t := u + [c];
    Kinds(c);
    assert |u| > 0 ==> t[0] == u[0];
    if k == |u| {
      assert t[..k] == u;
    } else {
      assert t[..k] == u[..k];
      DigitsSnoc(u, c, k + 1);
      assert PointAt(u, k);
    }
  }

  lemma FloatESnoc(u: seq<byte>, c: byte)
    ensures FloatE(u + [c]) <==> IsFloat(u) && IsE(c)
    ensures FloatESign(u + [c]) <==> FloatE(u) && IsSign(c)
  {
    assert (u + [c])[..|u|] == u;
  }

  lemma ScientificSnoc(u: seq<byte>, c: byte)
    ensures IsScientific(u + [c]) <==> IsDigit(c) && (FloatESign(u) || IsScientific(u))
  {
    var t := u + [c];
    if m: nat :| ExponentFrom(t, m) {
      DigitsSnoc(u, c, m);
      if m == |u| {
        assert t[..m] == u;
      } else {
        assert t[..m] == u[..m];
        assert ExponentFrom(u, m);
      }
    }
    if IsDigit(c) && FloatESign(u) {
      assert t[..|u|] == u;
      DigitsSnoc(u, c, |u|);
      assert ExponentFrom(t, |u|);
    } else if IsDigit(c) && IsScientific(u) {
      var m: nat :| ExponentFrom(u, m);
      assert t[..m] == u[..m];
      DigitsSnoc(u, c, m);
      assert ExponentFrom(t, m);
    }
  }

  lemma EmptyText()
    ensures Describes(Start, [])
  {
  }

  lemma DescribesNext(s: State, u: seq<byte>, c: byte)
    requires Describes(s, u)
    ensures Describes(Next(s, c), u + [c])
  {
    Kinds(c);
    IntSnoc(u, c);
    FloatSnoc(u, c);
    FloatESnoc(u, c);
    ScientificSnoc(u, c);
  }

  /** The machine's state says exactly which number format the text has. */
  lemma {:induction false} ScanClassifies(t: seq<byte>)
    ensures Describes(Scan(t), t)
    decreases |t|
  {
    if t == [] {
      EmptyText();
    } else {
      var u := t[..|t| - 1];
      ScanClassifies(u);
      DescribesNext(Scan(u), u, t[|t| - 1]);
      assert t == u + [t[|t| - 1]];
    }
  }
}
