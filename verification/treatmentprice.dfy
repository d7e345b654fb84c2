/** lib/treatment-price-api.ts: the price one hospital charges for an
    uninsured treatment, read from the public price service, trying several
    item codes in turn, for many hospitals at once. The service's reply to
    each (hospital, item code) request is the parameter `replies`. */
module TreatmentPrice {
  import opened Wrappers
  import Text

  /** An element of `items.item`: absent (reading `.amt` of it throws, and
      the call answers `null`), or an item whose `amt` text may be absent. */
  datatype PriceItem = Missing | PriceItem(amt: Option<string>)

  /** The reply: a failed call (any exception inside the `try`), a body
      without `items`, or the items, a single object already wrapped into a
      one-element list. */
  datatype PriceReply = CallFailed | NoItems | Items(items: seq<PriceItem>)

  /** The price a reply gives: `parseInt(items[0].amt || "0", 10)` when it is
      positive, and nothing otherwise. */
  function PriceFor(reply: PriceReply): (r: Option<int>)
    ensures r.Some? ==> r.value > 0
  {
    if !reply.Items? || reply.items == [] || reply.items[0].Missing? then None
    else match reply.items[0].amt
      case Some(s) => if s != "" then PositivePart(Text.ParseInt(s)) else None
      case None => None
  }

  /** `PriceFor` reads the first item as `parseInt(amt || "0", 10)` does. */
  lemma PriceForText(reply: PriceReply)
    requires reply.Items? && reply.items != [] && reply.items[0].PriceItem?
    ensures PriceFor(reply) == PositivePart(Text.ParseInt(Text.OrElse(reply.items[0].amt, "0")))
  {
    var amt := reply.items[0].amt;
    if amt.Some? && amt.value != "" {
      assert Text.OrElse(amt, "0") == amt.value;
    } else {
      assert Text.OrElse(amt, "0") == "0";
      Text.ParseIntZero();
    }
  }

  /** A price comes exactly from a first item whose `amt` text parses to a
      positive number. */
  lemma PriceForFirstAmount(reply: PriceReply)
    ensures PriceFor(reply).Some? <==>
      && reply.Items? && reply.items != [] && reply.items[0].PriceItem?
      && reply.items[0].amt.Some?
      && Text.ParseInt(reply.items[0].amt.value).Some?
      && Text.ParseInt(reply.items[0].amt.value).value > 0
    ensures PriceFor(reply).Some? ==> PriceFor(reply) == Text.ParseInt(reply.items[0].amt.value)
  {
    if reply.Items? && reply.items != [] && reply.items[0].PriceItem? {
      var amt := reply.items[0].amt;
      if amt.Some? && amt.value == "" {
        assert Text.TrimStart("") == "";
        assert Text.ParseInt(amt.value) == None;
      }
    }
  }

  function PositivePart(p: Option<int>): Option<int> {
    if p.Some? && p.value > 0 then p else None
  }

  /** A decimal amount reads back as its value. */
  lemma PriceForDecimal(n: int)
    ensures PriceFor(Items([PriceItem(Some(Text.IntToString(n)))])) == if n > 0 then Some(n) else None
  {
    Text.ParseIntToString(n);
  }

  /** `fetchTreatmentPrice(ykiho, itemCd)`: without an API key it throws;
      otherwise the price of the reply, or `null`. */
  function FetchTreatmentPrice(apiKey: Option<string>, reply: PriceReply): (r: Result<Option<int>>)
    ensures r.Failure? <==> !Text.Truthy(apiKey)
    ensures r.Failure? ==> r.error == MissingApiKey
    ensures r.Success? ==> r.value == PriceFor(reply)
    ensures r.Success? && r.value.Some? ==> r.value.value > 0
  {
    if !Text.Truthy(apiKey) then Failure(MissingApiKey) else Success(PriceFor(reply))
  }

  /** The first price `price` gives over `codes`, asking in order. */
  function FirstOf(codes: seq<string>, price: string -> Option<int>): (r: Option<int>)
    ensures r.None? <==> forall k :: 0 <= k < |codes| ==> price(codes[k]).None?
    ensures r.Some? ==> exists k :: 0 <= k < |codes| && price(codes[k]) == r
  {
    if codes == [] then None
    else if price(codes[0]).Some? then price(codes[0])
    else
      var r := FirstOf(codes[1..], price);
      assert forall k :: 1 <= k < |codes| ==> codes[k] == codes[1..][k - 1];
      r
  }

  /** How many codes the search asks: up to and including the first one
      with a price, or all of them when none has one. */
  function AttemptsOf(codes: seq<string>, price: string -> Option<int>): (n: nat)
    ensures n <= |codes|
    ensures codes != [] ==> 0 < n
  {
    if codes == [] then 0
    else if price(codes[0]).Some? then 1
    else 1 + AttemptsOf(codes[1..], price)
  }

  /** One step of the search over `codes[i..]`. */
  lemma SearchStep(codes: seq<string>, price: string -> Option<int>, i: nat)
    requires i < |codes|
    ensures FirstOf(codes[i..], price) ==
      if price(codes[i]).Some? then price(codes[i]) else FirstOf(codes[i + 1..], price)
    ensures AttemptsOf(codes[i..], price) ==
      if price(codes[i]).Some? then 1 else 1 + AttemptsOf(codes[i + 1..], price)
  {
    assert codes[i..][0] == codes[i] && codes[i..][1..] == codes[i + 1..];
  }

  /** Codes are asked in order: the last code asked is the first with a
      price, and every code is asked only when none has a price. */
  lemma {:induction false} AttemptsFirst(codes: seq<string>, price: string -> Option<int>)
    ensures var n := AttemptsOf(codes, price);
      && (FirstOf(codes, price).Some? ==>
            && 0 < n
            && price(codes[n - 1]) == FirstOf(codes, price)
            && forall k :: 0 <= k < n - 1 ==> price(codes[k]).None?)
      && (FirstOf(codes, price).None? ==> n == |codes|)
  {
    if codes != [] && price(codes[0]).None? {
      AttemptsFirst(codes[1..], price);
      var n := AttemptsOf(codes[1..], price);
      assert forall k :: 0 <= k < n ==> codes[1..][k] == codes[k + 1];
    }
  }

  /** The price each item code gives for one hospital. */
  function CodePrice(ykiho: string, replies: (string, string) -> PriceReply): string -> Option<int> {
    code => PriceFor(replies(ykiho, code))
  }

  /** The price of the first item code whose reply has one. */
  function FirstPrice(ykiho: string, codes: seq<string>, replies: (string, string) -> PriceReply): (r: Option<int>)
    ensures r.None? <==> forall k :: 0 <= k < |codes| ==> PriceFor(replies(ykiho, codes[k])).None?
    ensures r.Some? ==> exists k :: 0 <= k < |codes| && PriceFor(replies(ykiho, codes[k])) == r
    ensures r.Some? ==> r.value > 0
  {
    FirstOf(codes, CodePrice(ykiho, replies))
  }

  /** `fetchTreatmentPriceWithMultipleCodes`: asks for each item code in turn
      and stops at the first positive price. Also returns how many requests
      were made. An exception from the first request propagates. */
  method FetchTreatmentPriceWithMultipleCodes(
    apiKey: Option<string>, ykiho: string, codes: seq<string>, replies: (string, string) -> PriceReply
  ) returns (r: Result<Option<int>>, tried: nat)
    ensures codes == [] ==> r == Success(None) && tried == 0
    ensures codes != [] && !Text.Truthy(apiKey) ==> r == Failure(MissingApiKey) && tried == 1
    ensures Text.Truthy(apiKey) ==>
      r == Success(FirstPrice(ykiho, codes, replies)) && tried == AttemptsOf(codes, CodePrice(ykiho, replies))
  {
    ghost var price := CodePrice(ykiho, replies);
    tried := 0;
    assert codes[tried..] == codes;
    while tried < |codes|
      invariant tried <= |codes|
      invariant tried > 0 ==> Text.Truthy(apiKey)
      invariant FirstOf(codes, price) == FirstOf(codes[tried..], price)
      invariant AttemptsOf(codes, price) == tried + AttemptsOf(codes[tried..], price)
    {
      var answer := FetchTreatmentPrice(apiKey, replies(ykiho, codes[tried]));
      if answer.Failure? {
        return Failure(answer.error), tried + 1;
      }
      SearchStep(codes, price, tried);
      assert answer.value == price(codes[tried]);
      if answer.value.Some? && answer.value.value > 0 {
        return Success(answer.value), tried + 1;
      }
      tried := tried + 1;
    }
    assert codes[tried..] == [];
    return Success(None), tried;
  }

  /** `fetchTreatmentPricesBatch`: the map from each hospital that has a
      price to that price. A missing API key fails the batch at its first
      request. */
  method FetchTreatmentPricesBatch(
    apiKey: Option<string>, ykihos: seq<string>, codes: seq<string>, replies: (string, string) -> PriceReply
  ) returns (r: Result<map<string, int>>)
    ensures r.Failure? <==> !Text.Truthy(apiKey) && ykihos != [] && codes != []
    ensures r.Failure? ==> r.error == MissingApiKey
    ensures r.Success? ==> forall y :: y in r.value <==> y in ykihos && FirstPrice(y, codes, replies).Some?
    ensures r.Success? ==> forall y :: y in r.value ==> Some(r.value[y]) == FirstPrice(y, codes, replies) && r.value[y] > 0
  {
    var priceMap: map<string, int> := map[];
    for i := 0 to |ykihos|
      invariant i > 0 && codes != [] ==> Text.Truthy(apiKey)
      invariant forall y :: y in priceMap <==> y in ykihos[..i] && FirstPrice(y, codes, replies).Some?
      invariant forall y :: y in priceMap ==> Some(priceMap[y]) == FirstPrice(y, codes, replies)
    {
      var price, _ := FetchTreatmentPriceWithMultipleCodes(apiKey, ykihos[i], codes, replies);
      if price.Failure? {
        return Failure(price.error);
      }
      assert ykihos[..i + 1] == ykihos[..i] + [ykihos[i]];
      if price.value.Some? {
        priceMap := priceMap[ykihos[i] := price.value.value];
      }
    }
    assert ykihos[..|ykihos|] == ykihos;
    return Success(priceMap);
  }
}
