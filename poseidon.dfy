/** Poseidon hash inputs inside the constraint system (src/circuits/poseidon.rs):
    the order, wallet and match inputs that flatten circuit variables into
    field elements, the sponge that absorbs them, and the default sponge
    parameters. Field elements are a type parameter; turning a `u64` or `u8`
    variable into a field element is a parameter that may fail with a
    synthesis error, and so is the sponge's squeeze. */
module Poseidon {
  import opened Wrappers
  import opened Scalars

  type U8 = x: nat | x < 256

  datatype SynthesisError = AssignmentMissing | Unsatisfiable | Other(message: string)

  /** `u64_to_field_element` and `u8_to_field_element`. */
  datatype Conversions<E> = Conversions(fromU64: U64 -> Result<E, SynthesisError>, fromU8: U8 -> Result<E, SynthesisError>)

  datatype OrderVar = OrderVar(quoteMint: U64, baseMint: U64, side: U8, amount: U64, price: U64)
  datatype BalanceVar = BalanceVar(mint: U64, amount: U64)
  datatype WalletVar = WalletVar(balances: seq<BalanceVar>, orders: seq<OrderVar>)
  datatype SingleMatchVar = SingleMatchVar(mint: U64, amount: U64, side: U8)
  datatype MatchResultVariable = MatchResultVariable(matches1: seq<SingleMatchVar>, matches2: seq<SingleMatchVar>)

  const OrderWidth: nat := 5
  const BalanceWidth: nat := 2
  const MatchWidth: nat := 3

  /** The elements one order contributes: base mint, quote mint, side,
      price, amount. The first failed conversion is the error. */
  function OrderElements<E>(o: OrderVar, c: Conversions<E>): (r: Result<seq<E>, SynthesisError>)
    ensures r.Success? ==> |r.value| == OrderWidth
  {
    var baseMint :- c.fromU64(o.baseMint);
    var quoteMint :- c.fromU64(o.quoteMint);
    var side :- c.fromU8(o.side);
    var price :- c.fromU64(o.price);
    var amount :- c.fromU64(o.amount);
    Success([baseMint, quoteMint, side, price, amount])
  }

  /** The elements one balance contributes: amount, then mint. */
  function BalanceElements<E>(b: BalanceVar, c: Conversions<E>): (r: Result<seq<E>, SynthesisError>)
    ensures r.Success? ==> |r.value| == BalanceWidth
  {
    var amount :- c.fromU64(b.amount);
    var mint :- c.fromU64(b.mint);
    Success([amount, mint])
  }

  /** The elements one match contributes: amount, mint, side. */
  function MatchElements<E>(m: SingleMatchVar, c: Conversions<E>): (r: Result<seq<E>, SynthesisError>)
    ensures r.Success? ==> |r.value| == MatchWidth
  {
    var amount :- c.fromU64(m.amount);
    var mint :- c.fromU64(m.mint);
    var side :- c.fromU8(m.side);
    Success([amount, mint, side])
  }

  /** `xs.iter().map(f).collect::<Result<..>>()` where each `f` pushes its
      elements: all sections in order, or the first error met. */
  function Sections<T, E>(xs: seq<T>, f: T -> Result<seq<E>, SynthesisError>): Result<seq<E>, SynthesisError>
  {
    if xs == [] then Success([])
    else
      var head :- f(xs[0]);
      var tail :- Sections(xs[1..], f);
      Success(head + tail)
  }

  /** Collecting a concatenation: the sections of the first part, then of
      the second, with the first part's error winning. */
  lemma {:induction false} SectionsAppend<T, E>(xs: seq<T>, ys: seq<T>, f: T -> Result<seq<E>, SynthesisError>)
    ensures Sections(xs + ys, f) ==
      match Sections(xs, f)
      case Failure(e) => Failure(e)
      case Success(a) =>
        match Sections(ys, f)
        case Failure(e) => Failure(e)
        case Success(b) => Success(a + b)
  {
    if xs == [] {
      assert xs + ys == ys;
      if Sections(ys, f).Success? {
        assert [] + Sections(ys, f).value == Sections(ys, f).value;
      }
    } else {
      assert (xs + ys)[0] == xs[0];
      assert (xs + ys)[1..] == xs[1..] + ys;
      SectionsAppend(xs[1..], ys, f);
      match Sections(xs, f)
      case Failure(_) =>
      case Success(a) =>
        match Sections(ys, f)
        case Failure(_) =>
        case Success(b) =>
          var head := f(xs[0]).value;
          var rest := Sections(xs[1..], f).value;
          assert a == head + rest;
          assert (head + rest) + b == head + (rest + b);
    }
  }

  /** When every item gives `k` elements, the collected input succeeds
      exactly when every item converts, has `k` elements per item, and item
      `i` occupies positions `k * i` up to `k * i + k`. */
  lemma {:induction false} SectionsLayout<T, E>(xs: seq<T>, f: T -> Result<seq<E>, SynthesisError>, k: nat)
    requires forall i | 0 <= i < |xs| :: f(xs[i]).Success? ==> |f(xs[i]).value| == k
    ensures Sections(xs, f).Success? <==> forall i | 0 <= i < |xs| :: f(xs[i]).Success?
    ensures Sections(xs, f).Success? ==>
      |Sections(xs, f).value| == k * |xs| &&
      forall i | 0 <= i < |xs| ::
        k * i + k <= |Sections(xs, f).value| && Sections(xs, f).value[k * i..k * i + k] == f(xs[i]).value
  {
    if xs != [] {
      var tail := xs[1..];
      SectionsLayout(tail, f, k);
      assert forall i | 0 <= i < |tail| :: tail[i] == xs[i + 1];
      if Sections(xs, f).Success? {
        var head := f(xs[0]).value;
        var rest := Sections(tail, f).value;
        var r := Sections(xs, f).value;
        assert r == head + rest;
        assert k * |xs| == k + k * |tail|;
        forall i | 0 <= i < |xs|
          ensures k * i + k <= |r| && r[k * i..k * i + k] == f(xs[i]).value
        {
          if i == 0 {
            assert r[..k] == head;
          } else {
            assert k * i == k + k * (i - 1);
            assert r[k * i..k * i + k] == rest[k * (i - 1)..k * (i - 1) + k];
          }
        }
      }
    }
  }

  /** One pass of the `map` closure over `xs`, pushing onto `elements`;
      the first failed conversion abandons the input. */
  method PushSections<T, E>(elements: seq<E>, xs: seq<T>, f: T -> Result<seq<E>, SynthesisError>)
    returns (r: Result<seq<E>, SynthesisError>)
    ensures r == match Sections(xs, f)
                 case Failure(e) => Failure(e)
                 case Success(ys) => Success(elements + ys)
  {
    var pushed := elements;
    var i := 0;
    while i < |xs|
      invariant 0 <= i <= |xs|
      invariant Sections(xs[..i], f).Success? && pushed == elements + Sections(xs[..i], f).value
    {
      SectionsAppend(xs[..i], [xs[i]], f);
      assert xs[..i + 1] == xs[..i] + [xs[i]];
      assert [xs[i]][1..] == [];
      var section := f(xs[i]);
      if section.Failure? {
        SectionsAppend(xs[..i + 1], xs[i + 1..], f);
        assert xs[..i + 1] + xs[i + 1..] == xs;
        return Failure(section.error);
      }
      pushed := pushed + section.value;
      i := i + 1;
    }
    assert xs[..i] == xs;
    return Success(pushed);
  }

  // ----- the three hash inputs -----

  function OrderSection<E>(c: Conversions<E>): OrderVar -> Result<seq<E>, SynthesisError>
  {
    o => OrderElements(o, c)
  }

  function BalanceSection<E>(c: Conversions<E>): BalanceVar -> Result<seq<E>, SynthesisError>
  {
    b => BalanceElements(b, c)
  }

  function MatchSection<E>(c: Conversions<E>): SingleMatchVar -> Result<seq<E>, SynthesisError>
  {
    x => MatchElements(x, c)
  }

  function OrderHashElements<E>(w: WalletVar, c: Conversions<E>): Result<seq<E>, SynthesisError>
  {
    Sections(w.orders, OrderSection(c))
  }

  function WalletHashElements<E>(w: WalletVar, c: Conversions<E>): Result<seq<E>, SynthesisError>
  {
    var balances :- Sections(w.balances, BalanceSection(c));
    var orders :- Sections(w.orders, OrderSection(c));
    Success(balances + orders)
  }

  function MatchHashElements<E>(m: MatchResultVariable, c: Conversions<E>): Result<seq<E>, SynthesisError>
  {
    Sections(m.matches1 + m.matches2, MatchSection(c))
  }

  /** `From<&WalletVar> for Result<OrderHashInput>`. */
  method OrderHashInput<E>(w: WalletVar, c: Conversions<E>) returns (r: Result<seq<E>, SynthesisError>)
    ensures r == OrderHashElements(w, c)
  {
    r := PushSections([], w.orders, OrderSection(c));
    assert Sections(w.orders, OrderSection(c)).Success? ==>
      [] + Sections(w.orders, OrderSection(c)).value == Sections(w.orders, OrderSection(c)).value;
  }

  /** `From<&WalletVar> for Result<WalletHashInput>`: balances, then orders. */
  method WalletHashInput<E>(w: WalletVar, c: Conversions<E>) returns (r: Result<seq<E>, SynthesisError>)
    ensures r == WalletHashElements(w, c)
  {
    var withBalances := PushSections([], w.balances, BalanceSection(c));
    if withBalances.Failure? {
      return Failure(withBalances.error);
    }
    var balances := Sections(w.balances, BalanceSection(c)).value;
    assert [] + balances == balances == withBalances.value;
    r := PushSections(withBalances.value, w.orders, OrderSection(c));
  }

  /** `From<&MatchResultVariable> for Result<MatchHashInput>`: the first
      list of matches chained with the second. */
  method MatchHashInput<E>(m: MatchResultVariable, c: Conversions<E>) returns (r: Result<seq<E>, SynthesisError>)
    ensures r == MatchHashElements(m, c)
  {
    r := PushSections([], m.matches1 + m.matches2, MatchSection(c));
    assert Sections(m.matches1 + m.matches2, MatchSection(c)).Success? ==>
      [] + Sections(m.matches1 + m.matches2, MatchSection(c)).value
        == Sections(m.matches1 + m.matches2, MatchSection(c)).value;
  }

  /** The order input: five elements per order (base mint, quote mint, side,
      price, amount), or an error exactly when some conversion fails. */
  lemma OrderHashLayout<E>(w: WalletVar, c: Conversions<E>)
    ensures OrderHashElements(w, c).Success? <==>
      forall i | 0 <= i < |w.orders| :: OrderElements(w.orders[i], c).Success?
    ensures OrderHashElements(w, c).Success? ==>
      var r := OrderHashElements(w, c).value;
      |r| == OrderWidth * |w.orders| &&
      forall i | 0 <= i < |w.orders| ::
        var o := w.orders[i];
        r[OrderWidth * i..OrderWidth * i + OrderWidth] ==
          [c.fromU64(o.baseMint).value, c.fromU64(o.quoteMint).value, c.fromU8(o.side).value,
           c.fromU64(o.price).value, c.fromU64(o.amount).value]
  {
    SectionsLayout(w.orders, OrderSection(c), OrderWidth);
  }

  /** The wallet input: every balance as (amount, mint), then exactly the
      order input of the same wallet; 2B + 5O elements in all. */
  lemma WalletHashLayout<E>(w: WalletVar, c: Conversions<E>)
    ensures WalletHashElements(w, c).Success? <==>
      (forall i | 0 <= i < |w.balances| :: BalanceElements(w.balances[i], c).Success?) &&
      OrderHashElements(w, c).Success?
    ensures WalletHashElements(w, c).Success? ==>
      var r := WalletHashElements(w, c).value;
      var nb := BalanceWidth * |w.balances|;
      |r| == nb + OrderWidth * |w.orders| &&
      r[nb..] == OrderHashElements(w, c).value &&
      forall i | 0 <= i < |w.balances| ::
        r[BalanceWidth * i..BalanceWidth * i + BalanceWidth] ==
          [c.fromU64(w.balances[i].amount).value, c.fromU64(w.balances[i].mint).value]
  {
    SectionsLayout(w.balances, BalanceSection(c), BalanceWidth);
    OrderHashLayout(w, c);
    if WalletHashElements(w, c).Success? {
      var bs := Sections(w.balances, BalanceSection(c)).value;
      var r := WalletHashElements(w, c).value;
      forall i | 0 <= i < |w.balances|
        ensures r[BalanceWidth * i..BalanceWidth * i + BalanceWidth] == bs[BalanceWidth * i..BalanceWidth * i + BalanceWidth]
      {
        assert BalanceWidth * i + BalanceWidth <= |bs|;
      }
    }
  }

  /** The match input: the sections of the first list, then of the
      second, three elements (amount, mint, side) per match. */
  lemma MatchHashLayout<E>(m: MatchResultVariable, c: Conversions<E>)
    ensures MatchHashElements(m, c).Success? <==>
      (forall i | 0 <= i < |m.matches1| :: MatchElements(m.matches1[i], c).Success?) &&
      (forall i | 0 <= i < |m.matches2| :: MatchElements(m.matches2[i], c).Success?)
    ensures MatchHashElements(m, c).Success? ==>
      var r := MatchHashElements(m, c).value;
      |r| == MatchWidth * (|m.matches1| + |m.matches2|) &&
      Sections(m.matches1, MatchSection(c)).Success? && Sections(m.matches2, MatchSection(c)).Success? &&
      r == Sections(m.matches1, MatchSection(c)).value + Sections(m.matches2, MatchSection(c)).value
  {
    var f := MatchSection(c);
    SectionsAppend(m.matches1, m.matches2, f);
    SectionsLayout(m.matches1, f, MatchWidth);
    SectionsLayout(m.matches2, f, MatchWidth);
  }

  // ----- the sponge -----

  /** `PoseidonParameters`. */
  datatype PoseidonParameters<E> = PoseidonParameters(fullRounds: nat, partialRounds: nat, alpha: nat, mds: seq<seq<E>>, ark: seq<seq<E>>)

  /** `default_params`: the t = 3 instance, with the MDS matrix and round
      constants (tables not part of this model) passed in. */
  function DefaultParams<E>(mds: seq<seq<E>>, ark: seq<seq<E>>): (r: PoseidonParameters<E>)
    ensures r.fullRounds % 2 == 0 && r.fullRounds / 2 == 4
    ensures r.fullRounds + r.partialRounds == 64
    ensures r.alpha == 5 && r.mds == mds && r.ark == ark
  {
    PoseidonParameters(8, 56, 5, mds, ark)
  }

  /** `PoseidonSpongeWrapperVar`: a sponge, seen through everything it has
      absorbed; what it squeezes out is a function of the parameters and
      that sequence (the permutation itself is not part of this model). */
  class PoseidonSponge<E> {
    const params: PoseidonParameters<E>
    const squeeze: (PoseidonParameters<E>, seq<E>) -> Result<seq<E>, SynthesisError>
    var absorbed: seq<E>

    /** `PoseidonSpongeWrapperVar::new`: a fresh sponge with the defaults. */
    constructor (mds: seq<seq<E>>, ark: seq<seq<E>>, squeeze: (PoseidonParameters<E>, seq<E>) -> Result<seq<E>, SynthesisError>)
      ensures params == DefaultParams(mds, ark) && this.squeeze == squeeze && absorbed == []
    {
      params := DefaultParams(mds, ark);
      this.squeeze := squeeze;
      absorbed := [];
    }

    method Absorb(x: E)
      modifies this
      ensures absorbed == old(absorbed) + [x]
    {
      absorbed := absorbed + [x];
    }

    /** `squeeze_field_elements(1)`: one element, or an error. */
    method SqueezeOne() returns (r: Result<seq<E>, SynthesisError>)
      ensures r == squeeze(params, absorbed)
    {
      r := squeeze(params, absorbed);
    }
  }

  /** What `evaluate` returns after absorbing `input`: the last squeezed
      element, `AssignmentMissing` when none came out. */
  function HashOf<E>(sponge: PoseidonSponge<E>, input: seq<E>): (r: Result<E, SynthesisError>)
    reads sponge
    ensures r.Success? <==>
      sponge.squeeze(sponge.params, sponge.absorbed + input).Success? && |sponge.squeeze(sponge.params, sponge.absorbed + input).value| > 0
  {
    match sponge.squeeze(sponge.params, sponge.absorbed + input)
    case Failure(e) => Failure(e)
    case Success(out) => if |out| == 0 then Failure(AssignmentMissing) else Success(out[|out| - 1])
  }

  /** `PoseidonVectorHashGadget::evaluate`: absorbs every element in order,
      then squeezes one. */
  method Evaluate<E>(input: seq<E>, sponge: PoseidonSponge<E>) returns (r: Result<E, SynthesisError>)
    modifies sponge
    ensures sponge.absorbed == old(sponge.absorbed) + input
    ensures r == old(HashOf(sponge, input))
  {
    var i := 0;
    while i < |input|
      invariant 0 <= i <= |input|
      invariant sponge.absorbed == old(sponge.absorbed) + input[..i]
    {
      sponge.Absorb(input[i]);
      assert input[..i + 1] == input[..i] + [input[i]];
      i := i + 1;
    }
    assert input[..i] == input;
    var out := sponge.SqueezeOne();
    if out.Failure? {
      return Failure(out.error);
    }
    if |out.value| == 0 {
      return Failure(AssignmentMissing);
    }
    return Success(out.value[|out.value| - 1]);
  }
}
