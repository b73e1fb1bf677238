/** Special-offer templates in the admin panel
    (src/features/admin/hooks/useAdminOffers.ts): a template is created from
    the offer form, sent to users as personal copies that remember their
    template, and offers are deleted by id. */
module AdminOffers {
  import opened Base
  import opened Domain
  import opened Text
  import opened Computed

  /** The offer form. An empty date field is `None`; a filled one is the
      instant it parses to. */
  datatype OfferForm = OfferForm(
    name: string,
    kind: OfferType,
    value: real,
    startDate: Option<int>,
    endDate: Option<int>,
    conditionType: Condition,
    conditionValue: real,
    rewardProduct: string)

  /** The form after a reset; `firstDrink` is the first entry of the drink
      menu. */
  function BlankForm(firstDrink: string): OfferForm {
    OfferForm("", DiscountPercent, 20.0, None, None, NoCondition, 0.0, firstDrink)
  }

  const TEMPLATE_DAYS: int := 30

  predicate IsTemplate(o: SpecialOffer) {
    o.isTemplate
  }

  /** `templateOffers`. */
  function TemplateOffers(offers: seq<SpecialOffer>): (r: seq<SpecialOffer>)
    ensures forall o :: o in r <==> o in offers && o.isTemplate
  {
    Filter(offers, IsTemplate)
  }

  function FromTemplate(templateId: string): SpecialOffer -> bool {
    (o: SpecialOffer) => o.parentTemplateId == Some(templateId)
  }

  /** `getOfferRecipients`: the copies sent from a template. */
  function Recipients(offers: seq<SpecialOffer>, templateId: string): (r: seq<SpecialOffer>)
    ensures forall o :: o in r <==> o in offers && o.parentTemplateId == Some(templateId)
  {
    Filter(offers, FromTemplate(templateId))
  }

  /** The offer list, the form and whether a template was created. */
  datatype OfferEdit = OfferEdit(offers: seq<SpecialOffer>, form: OfferForm, created: bool)

  function NewTemplate(form: OfferForm, now: nat): SpecialOffer {
    SpecialOffer(
      "offer-" + NatToString(now),
      form.name,
      form.kind,
      form.value,
      if form.startDate.Some? then form.startDate.value else now,
      if form.endDate.Some? then form.endDate.value else now + TEMPLATE_DAYS * DAY_MS,
      None,
      form.conditionType,
      Some(form.conditionValue),
      if form.kind == FreeDrink then Some(form.rewardProduct) else None,
      true,
      false,
      None)
  }

  /** `createOfferTemplate`: nothing without a name; otherwise an untargeted
      template, valid from the form's dates (now and thirty days on when
      left empty), is appended and the form is reset. */
  function CreateOfferTemplate(offers: seq<SpecialOffer>, form: OfferForm, now: nat, firstDrink: string): (r: OfferEdit)
    ensures form.name == "" ==> r == OfferEdit(offers, form, false)
    ensures form.name != "" ==> r.created && r.form == BlankForm(firstDrink)
    ensures form.name != "" ==> |r.offers| == |offers| + 1 && r.offers[..|offers|] == offers
    ensures form.name != "" ==>
      var t := r.offers[|offers|];
      && t.isTemplate && t.targetUserId.None? && !t.used && t.name == form.name
      && t.startDate == (if form.startDate.Some? then form.startDate.value else now)
      && t.endDate == (if form.endDate.Some? then form.endDate.value else now + 30 * DAY_MS)
      && t.id == "offer-" + NatToString(now)
      && t.kind == form.kind && t.value == form.value
      && t.conditionType == form.conditionType && t.conditionValue == Some(form.conditionValue)
      && t.rewardProduct == (if form.kind == FreeDrink then Some(form.rewardProduct) else None)
      && t.parentTemplateId.None?
  {
    if form.name == "" then OfferEdit(offers, form, false)
    else OfferEdit(offers + [NewTemplate(form, now)], BlankForm(firstDrink), true)
  }

  function HasOfferId(id: string): SpecialOffer -> bool {
    (o: SpecialOffer) => o.id == id
  }

  function OtherOffer(id: string): SpecialOffer -> bool {
    (o: SpecialOffer) => o.id != id
  }

  /** `deleteOffer` and `deleteRecipientOffer` (the same update): every
      offer with that id goes, the others stay in order. */
  function DeleteOffer(offers: seq<SpecialOffer>, id: string): (r: seq<SpecialOffer>)
    ensures forall o :: o in r <==> o in offers && o.id != id
    ensures forall o :: multiset(r)[o] == if o.id != id then multiset(offers)[o] else 0
    ensures Subsequence(r, offers)
  {
    FilterCount(offers, OtherOffer(id));
    FilterSubsequence(offers, OtherOffer(id));
    Filter(offers, OtherOffer(id))
  }

  /** A created template is listed among the templates, after the old ones. */
  lemma CreatedTemplateListed(offers: seq<SpecialOffer>, form: OfferForm, now: nat, firstDrink: string)
    requires form.name != ""
    ensures var r := CreateOfferTemplate(offers, form, now, firstDrink);
      TemplateOffers(r.offers) == TemplateOffers(offers) + [r.offers[|offers|]]
  {
    FilterConcat(offers, [NewTemplate(form, now)], IsTemplate);
  }

  /** Deleting the template just created restores the offer list. */
  lemma DeleteUndoesCreate(offers: seq<SpecialOffer>, form: OfferForm, now: nat, firstDrink: string)
    requires form.name != ""
    requires forall i :: 0 <= i < |offers| ==> offers[i].id != "offer-" + NatToString(now)
    ensures DeleteOffer(CreateOfferTemplate(offers, form, now, firstDrink).offers, "offer-" + NatToString(now)) == offers
  {
    var t := NewTemplate(form, now);
    FilterConcat(offers, [t], OtherOffer(t.id));
    FilterAll(offers, OtherOffer(t.id));
    FilterNone([t], OtherOffer(t.id));
  }

  /** The personal copy of a template sent to one user. */
  function CopyFor(template: SpecialOffer, now: nat): string -> SpecialOffer {
    (uid: string) => template.(
      id := "offer-" + NatToString(now) + "-" + uid,
      targetUserId := Some(uid),
      isTemplate := false,
      used := false,
      parentTemplateId := Some(template.id))
  }

  /** The offer list and the template selection after a send. */
  datatype Sending = Sending(offers: seq<SpecialOffer>, selected: string)

  /** `sendTemplateToTargets`: with no template selected, or a selection
      that names no offer, nothing happens; otherwise one copy per target
      is appended and the selection is cleared. */
  function SendTemplate(offers: seq<SpecialOffer>, selected: string, targets: seq<string>, now: nat): (r: Sending)
    ensures selected == "" || Find(offers, HasOfferId(selected)).None? ==> r == Sending(offers, selected)
    ensures selected != "" && Find(offers, HasOfferId(selected)).Some? ==>
      && r.selected == ""
      && |r.offers| == |offers| + |targets|
      && r.offers[..|offers|] == offers
      && forall k :: 0 <= k < |targets| ==>
           && r.offers[|offers| + k].targetUserId == Some(targets[k])
           && !r.offers[|offers| + k].isTemplate && !r.offers[|offers| + k].used
           && r.offers[|offers| + k].parentTemplateId == Some(selected)
    ensures selected != "" && Find(offers, HasOfferId(selected)).Some? ==>
      var t := Find(offers, HasOfferId(selected)).value;
      forall k :: 0 <= k < |targets| ==>
        && r.offers[|offers| + k].id == "offer-" + NatToString(now) + "-" + targets[k]
        && r.offers[|offers| + k].(id := t.id, targetUserId := t.targetUserId, isTemplate := t.isTemplate,
                                   used := t.used, parentTemplateId := t.parentTemplateId) == t
  {
    if selected == "" then Sending(offers, selected)
    else match Find(offers, HasOfferId(selected))
      case None => Sending(offers, selected)
      case Some(template) => Sending(offers + Map(targets, CopyFor(template, now)), "")
  }

  /** Sending adds exactly the new copies to the template's recipient list
      and leaves the template list alone. */
  lemma SendExtendsRecipients(offers: seq<SpecialOffer>, selected: string, targets: seq<string>, now: nat)
    requires selected != ""
    requires Find(offers, HasOfferId(selected)).Some?
    ensures var r := SendTemplate(offers, selected, targets, now);
      && Recipients(r.offers, selected) == Recipients(offers, selected) + r.offers[|offers|..]
      && TemplateOffers(r.offers) == TemplateOffers(offers)
  {
    var template := Find(offers, HasOfferId(selected)).value;
    var copies := Map(targets, CopyFor(template, now));
    FilterConcat(offers, copies, FromTemplate(selected));
    FilterAll(copies, FromTemplate(selected));
    FilterConcat(offers, copies, IsTemplate);
    FilterNone(copies, IsTemplate);
    assert (offers + copies)[|offers|..] == copies;
  }

  /** A sent copy shows among its user's offers exactly while the
      template's date window covers the moment. */
  lemma SentCopyRedeemable(offers: seq<SpecialOffer>, selected: string, targets: seq<string>, now: nat, k: nat, at: int)
    requires selected != ""
    requires Find(offers, HasOfferId(selected)).Some?
    requires k < |targets|
    ensures var template := Find(offers, HasOfferId(selected)).value;
      var copy := SendTemplate(offers, selected, targets, now).offers[|offers| + k];
      Redeemable(copy, targets[k], at) <==> template.startDate <= at <= template.endDate
  {
  }

  /** `recipientsForViewingOffer`: nothing while no offer is being viewed. */
  function RecipientsForViewing(offers: seq<SpecialOffer>, viewing: Option<string>): (r: seq<SpecialOffer>)
    ensures !Truthy(viewing) ==> r == []
    ensures Truthy(viewing) ==> forall o :: o in r <==> o in offers && o.parentTemplateId == viewing
  {
    if !Truthy(viewing) then [] else Recipients(offers, viewing.value)
  }

  function UserIs(target: Option<string>): User -> bool {
    (u: User) => Some(u.id) == target
  }

  /** `resolveRecipientUser`: the registered user an offer targets, none
      for an untargeted offer. */
  function ResolveRecipient(users: seq<User>, target: Option<string>): (r: Option<User>)
    ensures target.None? ==> r.None?
    ensures r.Some? ==> r.value in users && target == Some(r.value.id)
    ensures r.None? <==> forall i :: 0 <= i < |users| ==> Some(users[i].id) != target
  {
    Find(users, UserIs(target))
  }
}
