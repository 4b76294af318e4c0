/** The exchange-rate log: appended at the end, listed newest first. */
module Currencies {
  import opened Wrappers

  datatype ExchangeRate = ExchangeRate(
    rateId: int,
    fromCurrency: string,
    toCurrency: string,
    rate: real,
    feeRate: real,
    source: string)

  /** An absent or empty filter matches every code. */
  predicate MatchesCode(filter: Option<string>, code: string) {
    filter.Some? && filter.value != "" ==> filter.value == code
  }

  predicate Matches(r: ExchangeRate, from: Option<string>, to: Option<string>) {
    MatchesCode(from, r.fromCurrency) && MatchesCode(to, r.toCurrency)
  }

  function Select(rates: seq<ExchangeRate>, from: Option<string>, to: Option<string>): seq<ExchangeRate> {
    if rates == [] then []
    else
      var rest := Select(rates[..|rates| - 1], from, to);
      var last := rates[|rates| - 1];
      if Matches(last, from, to) then rest + [last] else rest
  }

  function Reverse<T>(s: seq<T>): (r: seq<T>)
    ensures |r| == |s| && forall i :: 0 <= i < |s| ==> r[i] == s[|s| - 1 - i]
  {
    if s == [] then [] else [s[|s| - 1]] + Reverse(s[..|s| - 1])
  }

  /** `list_exchange_rates`: filter, reverse, cut to `limit`. */
  function ListExchangeRates(rates: seq<ExchangeRate>, from: Option<string>, to: Option<string>, limit: nat)
    : seq<ExchangeRate>
  {
    var newestFirst := Reverse(Select(rates, from, to));
    if limit <= |newestFirst| then newestFirst[..limit] else newestFirst
  }

  predicate LastMatch(rates: seq<ExchangeRate>, from: Option<string>, to: Option<string>, i: nat) {
    i < |rates| && Matches(rates[i], from, to) && forall j :: i < j < |rates| ==> !Matches(rates[j], from, to)
  }

  lemma LastMatchStays(rates: seq<ExchangeRate>, from: Option<string>, to: Option<string>, i: nat)
    requires rates != [] && !Matches(rates[|rates| - 1], from, to) && LastMatch(rates[..|rates| - 1], from, to, i)
    ensures LastMatch(rates, from, to, i) && rates[i] == rates[..|rates| - 1][i]
  {
    var front := rates[..|rates| - 1];
    forall j | i < j < |rates| ensures !Matches(rates[j], from, to) {
      if j < |front| { assert front[j] == rates[j]; }
    }
  }

  lemma {:induction false} SelectEndsWithLastMatch(rates: seq<ExchangeRate>, from: Option<string>, to: Option<string>)
    ensures var s := Select(rates, from, to);
            && (s == [] ==> forall i :: 0 <= i < |rates| ==> !Matches(rates[i], from, to))
            && (s != [] ==> exists i: nat :: LastMatch(rates, from, to, i) && s[|s| - 1] == rates[i])
  {
    if rates != [] {
      var front, last := rates[..|rates| - 1], rates[|rates| - 1];
      SelectEndsWithLastMatch(front, from, to);
      if Matches(last, from, to) {
        assert LastMatch(rates, from, to, |rates| - 1);
      } else if Select(front, from, to) != [] {
        var s := Select(front, from, to);
        var i: nat :| LastMatch(front, from, to, i) && s[|s| - 1] == front[i];
        LastMatchStays(rates, from, to, i);
      }
    }
  }

  /** Record `i` is the last one from `from` to `to`. */
  predicate LastOfPair(rates: seq<ExchangeRate>, from: string, to: string, i: nat) {
    && i < |rates| && rates[i].fromCurrency == from && rates[i].toCurrency == to
    && forall j :: i < j < |rates| ==> rates[j].fromCurrency != from || rates[j].toCurrency != to
  }

  predicate PairUnset(rates: seq<ExchangeRate>, from: string, to: string) {
    forall i :: 0 <= i < |rates| ==> rates[i].fromCurrency != from || rates[i].toCurrency != to
  }

  /** The rate a transfer uses is the last record from one currency to the other; there is one iff there ever was. */
  lemma LatestRateFirst(rates: seq<ExchangeRate>, from: string, to: string)
    requires from != "" && to != ""
    ensures var found := ListExchangeRates(rates, Some(from), Some(to), 1);
            && (found == [] <==> PairUnset(rates, from, to))
            && (found != [] ==> exists i: nat :: LastOfPair(rates, from, to, i) && found == [rates[i]])
  {
    SelectEndsWithLastMatch(rates, Some(from), Some(to));
    var s := Select(rates, Some(from), Some(to));
    if s != [] {
      var i: nat :| LastMatch(rates, Some(from), Some(to), i) && s[|s| - 1] == rates[i];
      assert LastOfPair(rates, from, to, i);
      assert ListExchangeRates(rates, Some(from), Some(to), 1) == [rates[i]];
    }
  }

  class InMemoryCurrencyStore {
    var rates: seq<ExchangeRate>
    var rateSeq: int

    /** Ids count the appends: record i carries i + 1. */
    predicate Valid()
      reads this
    {
      rateSeq == |rates| && forall i :: 0 <= i < |rates| ==> rates[i].rateId == i + 1
    }

    constructor ()
      ensures Valid() && rates == []
    {
      rates, rateSeq := [], 0;
    }

    method SetExchangeRate(from: string, to: string, rate: real, feeRate: real, source: string)
      returns (record: ExchangeRate)
      requires Valid()
      modifies this
      ensures Valid()
      ensures rates == old(rates) + [record]
      ensures record == ExchangeRate(|old(rates)| + 1, from, to, rate, feeRate, source)
    {
      rateSeq := rateSeq + 1;
      record := ExchangeRate(rateSeq, from, to, rate, feeRate, source);
      rates := rates + [record];
    }
  }

  predicate AscendingIds(rates: seq<ExchangeRate>) {
    forall i, j :: 0 <= i < j < |rates| ==> rates[i].rateId < rates[j].rateId
  }

  predicate NewestFirst(rates: seq<ExchangeRate>) {
    forall i, j :: 0 <= i < j < |rates| ==> rates[i].rateId > rates[j].rateId
  }

  lemma {:induction false} SelectAscending(rates: seq<ExchangeRate>, from: Option<string>, to: Option<string>)
    requires AscendingIds(rates)
    ensures AscendingIds(Select(rates, from, to))
    ensures forall r :: r in Select(rates, from, to) <==> r in rates && Matches(r, from, to)
  {
    if rates != [] {
      var front, last := rates[..|rates| - 1], rates[|rates| - 1];
      SelectAscending(front, from, to);
      assert forall r :: r in rates <==> r in front || r == last;
      var s := Select(front, from, to);
      assert forall i :: 0 <= i < |s| ==> s[i] in front;
    }
  }

  lemma ReverseMembers<T>(s: seq<T>)
    ensures forall x :: x in Reverse(s) <==> x in s
  {
    forall x | x in s ensures x in Reverse(s) {
      var k :| 0 <= k < |s| && s[k] == x;
      assert Reverse(s)[|s| - 1 - k] == x;
    }
  }

  lemma PrefixHoldsNewest(all: seq<ExchangeRate>, limit: nat, r: ExchangeRate)
    requires NewestFirst(all) && limit <= |all| && r in all && r !in all[..limit]
    ensures forall i :: 0 <= i < limit ==> all[i].rateId > r.rateId
  {
    var k :| 0 <= k < |all| && all[k] == r;
    assert forall i :: 0 <= i < limit ==> all[..limit][i] == all[i] && all[i] in all[..limit];
  }

  /** The record agrees with each code that is given and not empty. */
  predicate Agrees(r: ExchangeRate, from: Option<string>, to: Option<string>) {
    && (from.None? || from.value == "" || r.fromCurrency == from.value)
    && (to.None? || to.value == "" || r.toCurrency == to.value)
  }

  /**
   * On a log with ascending ids the listing is strictly newest first, and holds the `limit` newest records that agree
   * with the codes asked for; an absent or empty code leaves its field free.
   */
  lemma ListingNewestFirst(rates: seq<ExchangeRate>, from: Option<string>, to: Option<string>, limit: nat)
    requires AscendingIds(rates)
    ensures var found := ListExchangeRates(rates, from, to, limit);
            && |found| <= limit && NewestFirst(found)
            && (forall r :: r in found ==> r in rates && Agrees(r, from, to))
            && (forall r :: r in rates && Agrees(r, from, to) && r !in found ==>
                  |found| == limit && forall i :: 0 <= i < limit ==> found[i].rateId > r.rateId)
  {
    SelectAscending(rates, from, to);
    assert forall r :: Agrees(r, from, to) <==> Matches(r, from, to);
    var s := Select(rates, from, to);
    var all := Reverse(s);
    ReverseMembers(s);
    assert NewestFirst(all);
    var found := ListExchangeRates(rates, from, to, limit);
    assert found <= all;
    forall r | r in all && r !in found
      ensures |found| == limit && forall i :: 0 <= i < limit ==> found[i].rateId > r.rateId
    {
      PrefixHoldsNewest(all, limit, r);
    }
  }
}
