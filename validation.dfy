/**
 * `OrderValidator`: the three independent FluentValidation rules checked on
 * every order write request (`OrderViewModel`) before the action runs.
 * `DateTime.UtcNow`, read when the validator is built, is the parameter `now`.
 */
module Validation {
  import opened Wrappers
  import opened Entities

  /** The body of a create or update request. The JSON body may carry a null district. */
  datatype OrderRequest = OrderRequest(weight: real, cityDistrict: Option<string>, deliveryTime: Ticks)

  /** The request properties a rule is attached to. */
  datatype Field = WeightField | DeliveryTimeField | CityDistrictField

  /** .NET `char.IsWhiteSpace`: the Unicode space, line and paragraph separators, U+0009..U+000D and U+0085. */
  predicate IsWhiteSpace(c: char)
  {
    || '\U{0009}' <= c <= '\U{000D}'
    || c == ' ' || c == '\U{0085}' || c == '\U{00A0}' || c == '\U{1680}'
    || '\U{2000}' <= c <= '\U{200A}'
    || c == '\U{2028}' || c == '\U{2029}' || c == '\U{202F}' || c == '\U{205F}' || c == '\U{3000}'
  }

  /** `string.IsNullOrWhiteSpace`, which is what `NotEmpty()` rejects for a string. */
  predicate IsNullOrWhiteSpace(s: Option<string>)
  {
    s.None? || forall i :: 0 <= i < |s.value| ==> IsWhiteSpace(s.value[i])
  }

  /** `RuleFor(o => o.Weight).GreaterThan(0)`. */
  predicate WeightRule(req: OrderRequest)
  {
    req.weight > 0.0
  }

  /** `RuleFor(o => o.DeliveryTime).GreaterThan(DateTime.UtcNow)`. */
  predicate DeliveryTimeRule(req: OrderRequest, now: Ticks)
  {
    req.deliveryTime > now
  }

  /** `RuleFor(o => o.CityDistrict).NotEmpty()`. */
  predicate CityDistrictRule(req: OrderRequest)
  {
    !IsNullOrWhiteSpace(req.cityDistrict)
  }

  /**
   * The fields reported as invalid. Every rule is evaluated (none stops the
   * others), so a field is reported exactly when the comparison on it fails.
   */
  function Errors(req: OrderRequest, now: Ticks): (errs: set<Field>)
    ensures WeightField in errs <==> req.weight <= 0.0
    ensures DeliveryTimeField in errs <==> req.deliveryTime <= now
    ensures CityDistrictField in errs <==>
              (req.cityDistrict.None? ||
               forall i :: 0 <= i < |req.cityDistrict.value| ==> IsWhiteSpace(req.cityDistrict.value[i]))
    ensures errs <= {WeightField, DeliveryTimeField, CityDistrictField}
  {
    (if WeightRule(req) then {} else {WeightField})
    + (if DeliveryTimeRule(req, now) then {} else {DeliveryTimeField})
    + (if CityDistrictRule(req) then {} else {CityDistrictField})
  }

  /** A request is accepted exactly when all three rules hold. */
  lemma AcceptedIffAllRulesHold(req: OrderRequest, now: Ticks)
    ensures Errors(req, now) == {} <==>
              req.weight > 0.0 && req.deliveryTime > now &&
              req.cityDistrict.Some? && exists i :: 0 <= i < |req.cityDistrict.value| && !IsWhiteSpace(req.cityDistrict.value[i])
  {
    if Errors(req, now) == {} {
      assert CityDistrictField !in Errors(req, now);
    }
  }

  /**
   * The rules are independent: changing one property of the request changes
   * at most whether that property's field is reported.
   */
  lemma RulesAreIndependent(req: OrderRequest, now: Ticks, w: real, d: Option<string>, t: Ticks)
    ensures Errors(req.(weight := w), now) - {WeightField} == Errors(req, now) - {WeightField}
    ensures Errors(req.(cityDistrict := d), now) - {CityDistrictField} == Errors(req, now) - {CityDistrictField}
    ensures Errors(req.(deliveryTime := t), now) - {DeliveryTimeField} == Errors(req, now) - {DeliveryTimeField}
  {
  }

  /** Null, empty and whitespace-only districts all fail `NotEmpty`. */
  lemma BlankDistrictRejected(req: OrderRequest, now: Ticks, n: nat)
    requires req.cityDistrict == None || req.cityDistrict == Some(seq(n, _ => ' '))
    ensures CityDistrictField in Errors(req, now)
  {
  }

  /** A district with one non-blank character passes `NotEmpty`, whatever surrounds it. */
  lemma NonBlankDistrictAccepted(req: OrderRequest, now: Ticks, pre: string, c: char, post: string)
    requires !IsWhiteSpace(c)
    requires req.cityDistrict == Some(pre + [c] + post)
    ensures CityDistrictField !in Errors(req, now)
  {
    assert req.cityDistrict.value[|pre|] == c;
  }
}
