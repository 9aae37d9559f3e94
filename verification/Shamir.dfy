/**
 Shamir secret sharing over GF(2^8): the EXP and LOG tables, table multiplication
 and division, splitting a secret and putting it together again.
 */
module Shamir {
  import opened Options
  import opened Bytes
  import opened Gf256
  import opened Polynomials

  // ---- Tables

  /** The bits of 0x11d, least significant first. */
  const POLYNOMIAL: seq<bool> := [true, false, true, true, true, false, false, false, true]

  function WideXor(a: seq<bool>, b: seq<bool>): (c: seq<bool>)
    requires |a| == |b|
    ensures |c| == |a|
  {
    seq(|a|, i requires 0 <= i < |a| => a[i] != b[i])
  }

  /** One turn of the table loop: shift left, and subtract the polynomial when bit 8 is set. */
  function Shifted9(x: Byte): (w: seq<bool>)
    ensures |w| == 9
    ensures !w[8] && w[..8] == Xtime(x)
  {
    var w := [false] + x;
    var r := if w[8] then WideXor(w, POLYNOMIAL) else w;
    assert w[8] == x[7] && !r[8];
    assert forall i :: 1 <= i < 9 ==> w[i] == x[i - 1];
    r
  }

  lemma PowPeriodic(i: nat)
    ensures Pow(i + 255) == Pow(i)
  {
    Landmarks();
    IterAdd(i, 255, ONE);
  }

  /** The first i powers and their exponents are in the tables. */
  ghost predicate Filled(exp: seq<Byte>, log: seq<nat>, i: nat) {
    && |exp| == 512 && |log| == 256 && i <= 255
    && (forall j :: 0 <= j < i ==> exp[j] == Pow(j))
    && (forall j :: 0 <= j < i ==> log[PowValue(j)] == j)
  }

  lemma FilledNext(exp: seq<Byte>, log: seq<nat>, i: nat)
    requires Filled(exp, log, i) && i < 255
    ensures Filled(exp[i := Pow(i)], log[PowValue(i) := i], i + 1)
  {
    forall j | 0 <= j < i ensures log[PowValue(i) := i][PowValue(j)] == j { PowValueInjective(j, i); }
  }

  /** The first loop of the initialisation: the powers below 255 and their exponents. */
  method FillPowers(exp: array<Byte>, log: array<nat>)
    requires exp.Length == 512 && log.Length == 256
    modifies exp, log
    ensures forall j :: 0 <= j < 255 ==> exp[j] == Pow(j)
    ensures forall j :: 0 <= j < 255 ==> log[PowValue(j)] == j
  {
    var x: Byte := ONE;
    for i := 0 to 255
      invariant x == Pow(i) && Filled(exp[..], log[..], i)
    {
      FilledNext(exp[..], log[..], i);
      ValBound(x);
      exp[i] := x;
      log[Val(x)] := i;
      x := Shifted9(x)[..8];
    }
    assert Filled(exp[..], log[..], 255);
  }

  /** The second loop: the table goes round once more, so that a sum of two exponents needs no reduction. */
  method ExtendPowers(exp: array<Byte>)
    requires exp.Length == 512 && forall j :: 0 <= j < 255 ==> exp[j] == Pow(j)
    modifies exp
    ensures forall j :: 0 <= j < 512 ==> exp[j] == Pow(j)
  {
    for i := 255 to 512
      invariant forall j :: 0 <= j < i ==> exp[j] == Pow(j)
    {
      PowPeriodic(i - 255);
      exp[i] := exp[i - 255];
    }
  }

  class Tables {
    const exp: array<Byte>
    const log: array<nat>

    ghost predicate Valid()
      reads exp, log
    {
      && exp.Length == 512
      && log.Length == 256
      && (forall i :: 0 <= i < 512 ==> exp[i] == Pow(i))
      && (forall i :: 0 <= i < 255 ==> log[PowValue(i)] == i)
    }

    constructor ()
      ensures Valid() && fresh(exp) && fresh(log)
    {
      exp := new Byte[512](_ => ZERO);
      log := new nat[256](_ => 0);
      new;
      FillPowers(exp, log);
      ExtendPowers(exp);
    }

    lemma LogEntry(a: Byte)
      requires Valid() && a != ZERO
      ensures Val(a) < 256 && log[Val(a)] == Dlog(a)
    {
      assert Val(a) == PowValue(Dlog(a));
    }

    lemma MultiplyEntry(a: Byte, b: Byte)
      requires Valid() && a != ZERO && b != ZERO
      ensures Val(a) < 256 && Val(b) < 256 && log[Val(a)] + log[Val(b)] < 512
      ensures exp[log[Val(a)] + log[Val(b)]] == Mul(a, b)
    {
      LogEntry(a);
      LogEntry(b);
      MulPowPow(Dlog(a), Dlog(b));
    }

    /** Table multiplication is multiplication of polynomials modulo 0x11d. */
    function Multiply(a: Byte, b: Byte): (r: Byte)
      requires Valid()
      reads exp, log
      ensures r == Mul(a, b)
    {
      if a == ZERO then MulZero(b); ZERO
      else if b == ZERO then MulZero(a); ZERO
      else
        MultiplyEntry(a, b);
        exp[log[Val(a)] + log[Val(b)]]
    }

    /** Table division fails exactly on a zero divisor, and otherwise inverts multiplication. */
    function Divide(a: Byte, b: Byte): (r: Option<Byte>)
      requires Valid()
      reads exp, log
      ensures r.None? <==> b == ZERO
      ensures r.Some? ==> Mul(r.value, b) == a && r.value == Div(a, b)
    {
      if b == ZERO then None
      else if a == ZERO then
        DivZero(b);
        Some(ZERO)
      else
        LogEntry(a);
        LogEntry(b);
        DivPow(a, b);
        Some(exp[log[Val(a)] + 255 - log[Val(b)]])
    }
  }

  lemma DivZero(b: Byte)
    requires b != ZERO
    ensures Div(ZERO, b) == ZERO
  {
    MulZero(Inverse(b));
  }

  lemma DivPow(a: Byte, b: Byte)
    requires a != ZERO && b != ZERO
    ensures Div(a, b) == Pow(Dlog(a) + 255 - Dlog(b))
  {
    MulPowPow(Dlog(a), 255 - Dlog(b));
  }

  // ---- The field

  /** The field that the tables compute in; division by zero is never asked for. */
  ghost const GF: Field<Byte> := Field(ZERO, ONE, Xor, Mul, Quot)

  ghost function Quot(a: Byte, b: Byte): Byte { if b == ZERO then ZERO else Div(a, b) }

  lemma GfLaws(a: Byte, b: Byte, c: Byte)
    ensures LawsAt(GF, a, b, c)
  {
    XorComm(a, b);
    XorAssoc(a, b, c);
    XorZero(a);
    MulComm(a, b);
    MulAssoc(a, b, c);
    MulXor(a, b, c);
    MulZero(a);
    MulOneRight(a);
  }

  /** The tables make exclusive or, multiply and divide a field of characteristic two. */
  lemma GfIsField()
    ensures IsField(GF)
  {
    forall a: Byte, b: Byte, c: Byte ensures LawsAt(GF, a, b, c) { GfLaws(a, b, c); }
  }

  // ---- Splitting

  datatype Share = Share(index: nat, data: seq<Byte>)

  /** The k coefficients of one secret byte: the byte, then random ones; with no room the byte is not stored. */
  function PolyOf(k: nat, secretByte: Byte, coefficients: seq<Byte>): seq<Byte> {
    if k == 0 then [] else [secretByte] + coefficients
  }

  /** How many coefficients are drawn for each byte. */
  ghost predicate Drawn(random: seq<seq<Byte>>, secret: seq<Byte>, k: nat) {
    |random| == |secret| && forall i :: 0 <= i < |secret| ==> |random[i]| == if k == 0 then 0 else k - 1
  }

  /** What a share with the given index holds: beyond a byte the tables have no entry, and the first term is left. */
  ghost function ShareByte(poly: seq<Byte>, x: nat): Byte {
    if x < 256 then Eval<Byte>(GF, poly, OfNat(x)) else if poly == [] then ZERO else poly[0]
  }

  ghost predicate IsSplit(shares: seq<Share>, secret: seq<Byte>, n: nat, k: nat, random: seq<seq<Byte>>)
    requires Drawn(random, secret, k)
  {
    && |shares| == n
    && (forall j :: 0 <= j < n ==> shares[j].index == j + 1 && |shares[j].data| == |secret|)
    && (forall j, i :: 0 <= j < n && 0 <= i < |secret| ==>
          shares[j].data[i] == ShareByte(PolyOf(k, secret[i], random[i]), shares[j].index))
  }

  /** The Horner loop, from the highest coefficient down. */
  method Horner(tables: Tables, poly: seq<Byte>, x: nat) returns (y: Byte)
    requires tables.Valid()
    ensures y == ShareByte(poly, x)
  {
    y := ZERO;
    for e := |poly| downto 0
      invariant y == ShareByte(poly[e..], x)
    {
      assert poly[e..][1..] == poly[e + 1..];
      // A missing table entry makes the product undefined, which the exclusive or takes as zero
      var product := if x < 256 then tables.Multiply(y, OfNat(x)) else ZERO;
      XorZero(poly[e]);
      y := Xor(product, poly[e]);
    }
    assert poly[0..] == poly;
  }

  /** One pass over the shares for one byte of the secret. */
  method FillColumn(tables: Tables, shares: seq<Share>, i: nat, poly: seq<Byte>) returns (filled: seq<Share>)
    requires tables.Valid() && forall j :: 0 <= j < |shares| ==> i < |shares[j].data|
    ensures |filled| == |shares|
    ensures forall j :: 0 <= j < |shares| ==> filled[j].index == shares[j].index
    ensures forall j :: 0 <= j < |shares| ==> filled[j].data == shares[j].data[i := ShareByte(poly, shares[j].index)]
  {
    filled := shares;
    for j := 0 to |shares|
      invariant |filled| == |shares|
      invariant forall h :: 0 <= h < |shares| ==> filled[h].index == shares[h].index
      invariant forall h :: 0 <= h < j ==> filled[h].data == shares[h].data[i := ShareByte(poly, shares[h].index)]
      invariant forall h :: j <= h < |shares| ==> filled[h] == shares[h]
    {
      var y := Horner(tables, poly, filled[j].index);
      filled := filled[j := filled[j].(data := filled[j].data[i := y])];
    }
  }

  method SplitSecret(tables: Tables, secret: seq<Byte>, n: nat, k: nat, random: seq<seq<Byte>>)
    returns (shares: seq<Share>)
    requires tables.Valid() && Drawn(random, secret, k)
    ensures IsSplit(shares, secret, n, k, random)
  {
    shares := seq(n, j requires 0 <= j < n => Share(j + 1, seq(|secret|, _ => ZERO)));
    for i := 0 to |secret|
      invariant |shares| == n
      invariant forall j :: 0 <= j < n ==> shares[j].index == j + 1 && |shares[j].data| == |secret|
      invariant forall j, l :: 0 <= j < n && 0 <= l < i ==>
        shares[j].data[l] == ShareByte(PolyOf(k, secret[l], random[l]), shares[j].index)
    {
      shares := FillColumn(tables, shares, i, PolyOf(k, secret[i], random[i]));
    }
  }

  /** From the 256th share on, every share is the secret itself: secrecy needs n <= 255. */
  lemma LargeIndexReveals(shares: seq<Share>, secret: seq<Byte>, n: nat, k: nat, random: seq<seq<Byte>>, j: nat)
    requires 1 <= k && Drawn(random, secret, k) && IsSplit(shares, secret, n, k, random) && 255 <= j < n
    ensures shares[j].data == secret
  {
    forall i | 0 <= i < |secret| ensures shares[j].data[i] == secret[i] {
      assert PolyOf(k, secret[i], random[i])[0] == secret[i];
    }
  }

  // ---- Reconstruction

  function Indices(shares: seq<Share>): (xs: seq<Byte>)
    ensures |xs| == |shares|
  {
    seq(|shares|, j requires 0 <= j < |shares| => OfNat(shares[j].index))
  }

  function Column(shares: seq<Share>, i: nat): (ys: seq<Byte>)
    requires forall j :: 0 <= j < |shares| ==> i < |shares[j].data|
    ensures |ys| == |shares|
  {
    seq(|shares|, j requires 0 <= j < |shares| => shares[j].data[i])
  }

  /** The operations of the tables are those of the field F. */
  ghost predicate Implements(tables: Tables, F: Field<Byte>)
    reads tables.exp, tables.log
  {
    && tables.Valid()
    && F.zero == ZERO && F.one == ONE && IsField(F)
    && (forall a: Byte, b: Byte {:trigger Xor(a, b)} :: Xor(a, b) == F.add(a, b))
    && (forall a: Byte, b: Byte {:trigger tables.Multiply(a, b)} :: tables.Multiply(a, b) == F.mul(a, b))
    && (forall a: Byte, b: Byte {:trigger tables.Divide(a, b)} ::
          b != ZERO ==> tables.Divide(a, b) == Some(F.div(a, b)))
  }

  lemma TablesImplementGf(tables: Tables)
    requires tables.Valid()
    ensures Implements(tables, GF)
  {
    GfIsField();
  }

  lemma BasisStep(F: Field<Byte>, xs: seq<Byte>, x: Byte, m: nat)
    requires IsField(F) && m < |xs|
    ensures Basis(F, x, xs[..m + 1]) == F.mul(Basis(F, x, xs[..m]), Factor(F, x, xs[m]))
    ensures xs[m] == x ==> Basis(F, x, xs[..m + 1]) == Basis(F, x, xs[..m])
  {
    assert xs[..m + 1] == xs[..m] + [xs[m]];
    Law(F, Basis(F, x, xs[..m]), x, x);
  }

  /** One factor of the basis product: divide, which throws on equal indices, and multiply. */
  method TimesFactor(tables: Tables, ghost F: Field<Byte>, b: Byte, x: Byte, m: Byte) returns (r: Option<Byte>)
    requires Implements(tables, F)
    ensures r.None? <==> x == m
    ensures r.Some? ==> r.value == F.mul(b, Factor(F, x, m))
  {
    XorZero(x);
    var quotient := tables.Divide(m, Xor(x, m));
    if quotient.None? {
      XorDiffers(x, m);
      return None;
    }
    return Some(tables.Multiply(b, quotient.value));
  }

  /** The basis loop for share j; it stops with None when two indices coincide. */
  method BasisAt(tables: Tables, ghost F: Field<Byte>, xs: seq<Byte>, j: nat) returns (basis: Option<Byte>)
    requires Implements(tables, F) && j < |xs|
    ensures basis.None? <==> exists m :: 0 <= m < |xs| && m != j && xs[m] == xs[j]
    ensures basis.Some? ==> basis.value == Basis(F, xs[j], xs)
  {
    var b, m := ONE, 0;
    while j < |xs|
      invariant 0 <= m < |xs|
      invariant b == Basis(F, xs[j], xs[..m])
      invariant forall h :: 0 <= h < m && h != j ==> xs[h] != xs[j]
      decreases |xs| - m
    {
      BasisStep(F, xs, xs[j], m);
      if j == m {
        if m == |xs| - 1 { break; }
        m := m + 1;
        continue;
      }
      var product := TimesFactor(tables, F, b, xs[j], xs[m]);
      if product.None? { return None; }
      b := product.value;
      if m == |xs| - 1 { break; }
      m := m + 1;
    }
    assert xs[..m + 1] == xs;
    return Some(b);
  }

  /** The loop over the shares for one byte; None when two shares have the same index. */
  method CombineByte(tables: Tables, ghost F: Field<Byte>, xs: seq<Byte>, ys: seq<Byte>) returns (r: Option<Byte>)
    requires Implements(tables, F) && |xs| == |ys|
    ensures r.Some? <==> Distinct(xs)
    ensures r.Some? ==> r.value == Combine(F, xs, ys, xs)
  {
    var result := ZERO;
    for j := 0 to |xs|
      invariant result == Combine(F, xs[..j], ys[..j], xs)
      invariant forall h, m :: 0 <= h < j && 0 <= m < |xs| && h != m ==> xs[h] != xs[m]
    {
      var basis := BasisAt(tables, F, xs, j);
      if basis.None? { return None; }
      assert xs[..j + 1] == xs[..j] + [xs[j]] && ys[..j + 1] == ys[..j] + [ys[j]];
      CombineAppend(F, xs[..j], ys[..j], xs[j], ys[j], xs);
      result := Xor(result, tables.Multiply(ys[j], basis.value));
    }
    assert xs[..|xs|] == xs && ys[..|ys|] == ys;
    return Some(result);
  }

  datatype Outcome = Recovered(secret: seq<Byte>) | NoShares | DivisionByZero

  /** Byte i of the secret that a list of shares stands for. */
  ghost function RecoveredByte(shares: seq<Share>, i: nat): Byte
    requires forall j :: 0 <= j < |shares| ==> i < |shares[j].data|
  {
    Combine(GF, Indices(shares), Column(shares, i), Indices(shares))
  }

  method ReconstructSecret(tables: Tables, shares: seq<Share>) returns (r: Outcome)
    requires tables.Valid() && forall j :: 0 <= j < |shares| ==> shares[j].index < 256
    requires forall j :: 0 <= j < |shares| ==> |shares[j].data| >= |shares[0].data|
    ensures r.NoShares? <==> shares == []
    ensures r.DivisionByZero? <==> shares != [] && shares[0].data != [] && !Distinct(Indices(shares))
    ensures r.Recovered? ==> |r.secret| == |shares[0].data|
    ensures r.Recovered? ==> forall i :: 0 <= i < |r.secret| ==> r.secret[i] == RecoveredByte(shares, i)
  {
    if shares == [] { return NoShares; }
    var len := |shares[0].data|;
    var secret := seq(len, _ => ZERO);
    TablesImplementGf(tables);
    for i := 0 to len
      invariant |secret| == len
      invariant i > 0 ==> Distinct(Indices(shares))
      invariant forall l :: 0 <= l < i ==> secret[l] == RecoveredByte(shares, l)
    {
      var combined := CombineByte(tables, GF, Indices(shares), Column(shares, i));
      if combined.None? { return DivisionByZero; }
      secret := secret[i := combined.value];
    }
    return Recovered(secret);
  }

  // ---- Round trip and secrecy

  /** The shares at the given positions, in that order. */
  function Pick(shares: seq<Share>, positions: seq<nat>): (picked: seq<Share>)
    requires forall i :: 0 <= i < |positions| ==> positions[i] < |shares|
    ensures |picked| == |positions|
  {
    seq(|positions|, i requires 0 <= i < |positions| => shares[positions[i]])
  }

  lemma IndexInjective(i: nat, j: nat)
    requires i < 255 && j < 255 && OfNat(i + 1) == OfNat(j + 1)
    ensures i == j
  {
    ValOfNat(i + 1);
    ValOfNat(j + 1);
  }

  lemma PickedDistinct(shares: seq<Share>, positions: seq<nat>)
    requires |shares| <= 255 && forall j :: 0 <= j < |shares| ==> shares[j].index == j + 1
    requires forall i :: 0 <= i < |positions| ==> positions[i] < |shares|
    requires forall i, j :: 0 <= i < j < |positions| ==> positions[i] != positions[j]
    ensures Distinct(Indices(Pick(shares, positions)))
  {
    var xs := Indices(Pick(shares, positions));
    forall i, j | 0 <= i < j < |xs| ensures xs[i] != xs[j] {
      if xs[i] == xs[j] { IndexInjective(positions[i], positions[j]); }
    }
  }

  /**
   Any k or more different shares of a split give every byte of the secret back,
   for every secret and every choice of the random coefficients.
   */
  lemma Recovery(shares: seq<Share>, secret: seq<Byte>, n: nat, k: nat, random: seq<seq<Byte>>, positions: seq<nat>,
                 i: nat)
    requires n <= 255 && 1 <= k && Drawn(random, secret, k) && IsSplit(shares, secret, n, k, random)
    requires k <= |positions|
    requires forall l :: 0 <= l < |positions| ==> positions[l] < n
    requires forall l, m :: 0 <= l < m < |positions| ==> positions[l] != positions[m]
    requires i < |secret|
    ensures Distinct(Indices(Pick(shares, positions)))
    ensures RecoveredByte(Pick(shares, positions), i) == secret[i]
  {
    var picked := Pick(shares, positions);
    var xs, p := Indices(picked), PolyOf(k, secret[i], random[i]);
    PickedDistinct(shares, positions);
    assert Column(picked, i) == Values(GF, p, xs);
    GfIsField();
    Lagrange(GF, p, xs);
    EvalZero(GF, p);
  }

  /** The same through the code: split, choose at least k shares, reconstruct. */
  method RoundTrip(secret: seq<Byte>, n: nat, k: nat, random: seq<seq<Byte>>, positions: seq<nat>) returns (r: Outcome)
    requires n <= 255 && 1 <= k && Drawn(random, secret, k) && k <= |positions|
    requires forall l :: 0 <= l < |positions| ==> positions[l] < n
    requires forall l, m :: 0 <= l < m < |positions| ==> positions[l] != positions[m]
    ensures r == Recovered(secret)
  {
    var tables := new Tables();
    var shares := SplitSecret(tables, secret, n, k, random);
    var picked := Pick(shares, positions);
    forall i | 0 <= i < |secret| ensures RecoveredByte(picked, i) == secret[i] {
      Recovery(shares, secret, n, k, random, positions, i);
    }
    PickedDistinct(shares, positions);
    r := ReconstructSecret(tables, picked);
    assert r.secret == secret;
  }

  /**
   Whatever k - 1 shares say, every candidate byte is the constant term of exactly
   one coefficient vector that produces them: they favour no secret.
   */
  lemma Secrecy(k: nat, xs: seq<Byte>, ys: seq<Byte>, secretByte: Byte) returns (p: seq<Byte>)
    requires |xs| == |ys| == k - 1 && Distinct(xs) && ZERO !in xs
    ensures |p| == k && p[0] == secretByte && Through(GF, p, xs, ys)
    ensures forall p': seq<Byte> :: |p'| == k && p'[0] == secretByte && Through(GF, p', xs, ys) ==> p' == p
  {
    GfIsField();
    p := UniqueFit(GF, xs, ys, secretByte);
  }

  // ---- What the shares say

  /** A share is the polynomial in its index whose terms are the secret byte and the drawn bytes, in that order. */
  lemma SharesAre(shares: seq<Share>, secret: seq<Byte>, n: nat, k: nat, random: seq<seq<Byte>>, j: nat, i: nat)
    requires 1 <= k && Drawn(random, secret, k) && IsSplit(shares, secret, n, k, random)
    requires j < n && j < 255 && i < |secret|
    ensures shares[j].index == j + 1
    ensures shares[j].data[i] == TermSum(GF, [secret[i]] + random[i], OfNat(j + 1))
  {
    GfIsField();
    EvalIsTermSum(GF, [secret[i]] + random[i], OfNat(j + 1));
  }

  ghost predicate Positions(positions: seq<nat>, n: nat) {
    && (forall l :: 0 <= l < |positions| ==> positions[l] < n)
    && (forall l, m :: 0 <= l < m < |positions| ==> positions[l] != positions[m])
  }

  /** The shares at the positions hold the given bytes. */
  ghost predicate Show(shares: seq<Share>, positions: seq<nat>, views: seq<seq<Byte>>)
    requires Positions(positions, |shares|) && |views| == |positions|
  {
    forall l :: 0 <= l < |positions| ==> shares[positions[l]].data == views[l]
  }

  function Points(positions: seq<nat>): (xs: seq<Byte>)
    requires forall l :: 0 <= l < |positions| ==> positions[l] < 255
    ensures |xs| == |positions|
  {
    seq(|positions|, l requires 0 <= l < |positions| => OfNat(positions[l] + 1))
  }

  lemma PointsDistinct(positions: seq<nat>)
    requires Positions(positions, 255)
    ensures Distinct(Points(positions)) && ZERO !in Points(positions)
  {
    var xs := Points(positions);
    forall i, j | 0 <= i < j < |xs| ensures xs[i] != xs[j] {
      if xs[i] == xs[j] { IndexInjective(positions[i], positions[j]); }
    }
    forall i | 0 <= i < |xs| ensures xs[i] != ZERO { ValOfNat(positions[i] + 1); ValOfNat(0); }
  }

  /** The drawn bytes give the bytes ys at the points. */
  ghost predicate Gives(k: nat, positions: seq<nat>, ys: seq<Byte>, secretByte: Byte, drawn: seq<Byte>)
    requires |ys| == |positions|
  {
    forall l :: 0 <= l < |positions| ==> ShareByte(PolyOf(k, secretByte, drawn), positions[l] + 1) == ys[l]
  }

  lemma GivesThrough(k: nat, positions: seq<nat>, ys: seq<Byte>, secretByte: Byte, drawn: seq<Byte>)
    requires Positions(positions, 255) && |ys| == |positions| == k - 1
    ensures Gives(k, positions, ys, secretByte, drawn) <==>
      Through(GF, PolyOf(k, secretByte, drawn), Points(positions), ys)
  {
    var xs, p := Points(positions), PolyOf(k, secretByte, drawn);
    forall l | 0 <= l < |positions| ensures ShareByte(p, positions[l] + 1) == Eval<Byte>(GF, p, xs[l]) {}
  }

  /** Exactly these drawn bytes give the bytes ys at the points. */
  ghost predicate GivesOnly(k: nat, positions: seq<nat>, ys: seq<Byte>, secretByte: Byte, drawn: seq<Byte>)
    requires |ys| == |positions|
  {
    && |drawn| == k - 1
    && forall d: seq<Byte> :: |d| == k - 1 ==> (Gives(k, positions, ys, secretByte, d) <==> d == drawn)
  }

  lemma OneDraw(k: nat, positions: seq<nat>, ys: seq<Byte>, secretByte: Byte) returns (drawn: seq<Byte>)
    requires Positions(positions, 255) && |ys| == |positions| == k - 1
    ensures GivesOnly(k, positions, ys, secretByte, drawn)
  {
    var xs := Points(positions);
    PointsDistinct(positions);
    var p := Secrecy(k, xs, ys, secretByte);
    drawn := p[1..];
    forall d: seq<Byte> | |d| == k - 1 ensures Gives(k, positions, ys, secretByte, d) <==> d == drawn {
      GivesThrough(k, positions, ys, secretByte, d);
      var q := PolyOf(k, secretByte, d);
      assert q[0] == secretByte && q[1..] == d;
      assert d == drawn ==> q == p;
    }
  }

  function ColumnOf(views: seq<seq<Byte>>, i: nat): (ys: seq<Byte>)
    requires forall l :: 0 <= l < |views| ==> i < |views[l]|
    ensures |ys| == |views|
  {
    seq(|views|, l requires 0 <= l < |views| => views[l][i])
  }

  /**
   Whatever any k - 1 shares are to hold, for every secret exactly one choice of the drawn bytes
   makes the split hold it there.
   */
  lemma SplitHides(secret: seq<Byte>, n: nat, k: nat, positions: seq<nat>, views: seq<seq<Byte>>)
    returns (shares: seq<Share>, random: seq<seq<Byte>>)
    requires n <= 255 && |positions| == |views| == k - 1 && Positions(positions, n)
    requires forall l :: 0 <= l < |views| ==> |views[l]| == |secret|
    ensures Drawn(random, secret, k) && IsSplit(shares, secret, n, k, random) && Show(shares, positions, views)
    ensures forall shares', random' ::
      Drawn(random', secret, k) && IsSplit(shares', secret, n, k, random') && Show(shares', positions, views) ==>
      random' == random
  {
    random := Draws(secret, k, positions, views);
    assert forall i :: 0 <= i < |secret| ==> GivesOnly(k, positions, ColumnOf(views, i), secret[i], random[i]);
    shares := SharesOf(secret, n, k, random);
    ShowsExactly(shares, secret, n, k, random, positions, views);
    forall shares', random' |
      Drawn(random', secret, k) && IsSplit(shares', secret, n, k, random') && Show(shares', positions, views)
      ensures random' == random
    {
      ShowsExactly(shares', secret, n, k, random', positions, views);
    }
  }

  ghost function SharesOf(secret: seq<Byte>, n: nat, k: nat, random: seq<seq<Byte>>): (shares: seq<Share>)
    requires Drawn(random, secret, k)
    ensures IsSplit(shares, secret, n, k, random)
  {
    seq(n, j requires 0 <= j < n =>
      Share(j + 1, seq(|secret|, i requires 0 <= i < |secret| => ShareByte(PolyOf(k, secret[i], random[i]), j + 1))))
  }

  lemma ShowsExactly(shares: seq<Share>, secret: seq<Byte>, n: nat, k: nat, random: seq<seq<Byte>>,
                     positions: seq<nat>, views: seq<seq<Byte>>)
    requires Drawn(random, secret, k) && IsSplit(shares, secret, n, k, random)
    requires |positions| == |views| && Positions(positions, n)
    requires forall l :: 0 <= l < |views| ==> |views[l]| == |secret|
    ensures Show(shares, positions, views) <==>
      forall i :: 0 <= i < |secret| ==> Gives(k, positions, ColumnOf(views, i), secret[i], random[i])
  {
    if Show(shares, positions, views) {
      forall i | 0 <= i < |secret| ensures Gives(k, positions, ColumnOf(views, i), secret[i], random[i]) {}
    }
    if forall i :: 0 <= i < |secret| ==> Gives(k, positions, ColumnOf(views, i), secret[i], random[i]) {
      forall l | 0 <= l < |positions| ensures shares[positions[l]].data == views[l] {
        forall i | 0 <= i < |secret| ensures shares[positions[l]].data[i] == views[l][i] {
          assert Gives(k, positions, ColumnOf(views, i), secret[i], random[i]);
        }
      }
    }
  }

  ghost predicate SomeFits<T(!new)>(i: nat, fits: (nat, T) -> bool) { exists t :: fits(i, t) }

  lemma {:induction false} Collect<T(!new)>(n: nat, fits: (nat, T) -> bool) returns (s: seq<T>)
    requires forall i :: 0 <= i < n ==> SomeFits(i, fits)
    ensures |s| == n && forall i :: 0 <= i < n ==> fits(i, s[i])
  {
    if n == 0 {
      s := [];
    } else {
      s := Collect(n - 1, fits);
      assert SomeFits(n - 1, fits);
      var t :| fits(n - 1, t);
      s := s + [t];
    }
  }

  lemma Draws(secret: seq<Byte>, k: nat, positions: seq<nat>, views: seq<seq<Byte>>) returns (random: seq<seq<Byte>>)
    requires |positions| == |views| == k - 1 && Positions(positions, 255)
    requires forall l :: 0 <= l < |views| ==> |views[l]| == |secret|
    ensures |random| == |secret|
    ensures forall i :: 0 <= i < |secret| ==> GivesOnly(k, positions, ColumnOf(views, i), secret[i], random[i])
  {
    var fits := (i: nat, d: seq<Byte>) =>
      i < |secret| && GivesOnly(k, positions, ColumnOf(views, i), secret[i], d);
    forall i | 0 <= i < |secret| ensures SomeFits(i, fits) {
      var d := OneDraw(k, positions, ColumnOf(views, i), secret[i]);
      assert fits(i, d);
    }
    random := Collect(|secret|, fits);
    assert forall i :: 0 <= i < |secret| ==> fits(i, random[i]);
  }

  /**
   Any k - 1 shares of a split are those of exactly one split of every other secret of that length: they
   say nothing of the secret. For the same secret that is the split itself.
   */
  lemma FewSharesSayNothing(shares: seq<Share>, secret: seq<Byte>, n: nat, k: nat, random: seq<seq<Byte>>,
                            positions: seq<nat>, other: seq<Byte>)
    returns (shares': seq<Share>, random': seq<seq<Byte>>)
    requires n <= 255 && |positions| == k - 1 && Positions(positions, n) && |other| == |secret|
    requires Drawn(random, secret, k) && IsSplit(shares, secret, n, k, random)
    ensures Drawn(random', other, k) && IsSplit(shares', other, n, k, random')
    ensures Pick(shares', positions) == Pick(shares, positions)
    ensures other == secret ==> random' == random
    ensures forall s, r ::
      Drawn(r, other, k) && IsSplit(s, other, n, k, r) && Pick(s, positions) == Pick(shares, positions) ==>
      r == random'
  {
    var views := seq(|positions|, l requires 0 <= l < |positions| => shares[positions[l]].data);
    shares', random' := SplitHides(other, n, k, positions, views);
    assert forall l :: 0 <= l < |positions| ==> shares'[positions[l]] == shares[positions[l]];
    forall s: seq<Share>, r: seq<seq<Byte>> |
      Drawn(r, other, k) && IsSplit(s, other, n, k, r) && Pick(s, positions) == Pick(shares, positions)
      ensures r == random'
    {
      forall l | 0 <= l < |positions| ensures s[positions[l]].data == views[l] {
        assert Pick(s, positions)[l] == Pick(shares, positions)[l];
      }
    }
    if other == secret { assert Show(shares, positions, views); }
  }
}
