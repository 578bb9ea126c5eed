/**
 * The validator the controller runs before it writes: the rule strings of
 * `store` and `update`, evaluated with the meaning Laravel's validator gives
 * `required`, `nullable`, `string`, `max:` and `in:`.
 */
module Validation {
  import opened Wrappers
  import opened Todos

  /** One `|`-separated token of a rule string. */
  datatype Rule = Required | Nullable | IsString | Max(limit: nat) | In(choices: seq<string>)

  /** `store` validates with the create rules, `update` with the modify rules. */
  datatype Mode = Create | Modify

  /** The longest title either rule set admits, in characters. */
  const TitleLimit: nat := 255

  /**
   * The rule list of a field. Create: `required|string|max:255`,
   * `nullable|string`, `nullable|in:completed,in_progress,not_started`;
   * modify differs only in `nullable` in place of `required` for the title.
   */
  function Rules(mode: Mode, f: Field): (rules: seq<Rule>)
    ensures forall r :: r in rules ==> r in {Required, Nullable, IsString, Max(TitleLimit), In(StatusNames)}
    ensures (Required in rules) <==> (mode == Create && f == TitleField)
    ensures (Nullable in rules) <==> !(mode == Create && f == TitleField)
    ensures IsString in rules <==> f != StatusField
    ensures Max(TitleLimit) in rules <==> f == TitleField
    ensures In(StatusNames) in rules <==> f == StatusField
    ensures rules[0] == Required || rules[0] == Nullable
  {
    match f
    case TitleField => [if mode == Create then Required else Nullable, IsString, Max(TitleLimit)]
    case DetailsField => [Nullable, IsString]
    case StatusField => [Nullable, In(StatusNames)]
  }

  /** The characters PHP's `trim` removes. */
  predicate IsTrimmed(c: char) {
    c == ' ' || c == '\t' || c == '\n' || c == '\r' || c == '\0' || c == 11 as char
  }

  /** A string that `trim` turns into the empty string. */
  predicate Blank(s: string) {
    forall i :: 0 <= i < |s| ==> IsTrimmed(s[i])
  }

  /** What `max:` measures: characters of a string, elements of an array. */
  function Size(v: Value): nat {
    match v
    case Null => 0
    case Str(s) => |s|
    case Scalar(n) => n
    case List(n) => n
  }

  /** Whether `rule` accepts the present value `v`. */
  predicate Accepts(rule: Rule, v: Value) {
    match rule
    case Required => !(v.Null? || (v.Str? && Blank(v.text)) || (v.List? && v.count == 0))
    case Nullable => true
    case IsString => v.Str?
    case Max(n) => Size(v) <= n
    case In(choices) => v.Str? && v.text in choices
  }

  /**
   * Whether `rule` fails on a field whose value is `v` (None: the field is
   * absent). `required` is checked even on an absent field; every other rule
   * is skipped on an absent field, and on a null one when the field is nullable.
   */
  predicate Fails(rule: Rule, nullable: bool, v: Option<Value>) {
    if rule.Required? then v.None? || !Accepts(rule, v.value)
    else v.Some? && !(nullable && v.value.Null?) && !Accepts(rule, v.value)
  }

  /** `xs` is `ys` with some elements left out and the rest kept in order. */
  predicate Subsequence<T(==)>(xs: seq<T>, ys: seq<T>) {
    if xs == [] then true
    else if ys == [] then false
    else if xs[0] == ys[0] then Subsequence(xs[1..], ys[1..])
    else Subsequence(xs, ys[1..])
  }

  /**
   * The rules of `rules` that fail on `v`, in rule order. As in Laravel's
   * validator, `required` is implicit: once it fails, the rules after it are
   * not checked.
   */
  function FailedRules(rules: seq<Rule>, nullable: bool, v: Option<Value>): (failed: seq<Rule>)
    ensures forall r :: r in failed ==> r in rules && Fails(r, nullable, v)
    ensures !(Required in rules && Fails(Required, nullable, v)) ==>
      forall r :: r in rules && Fails(r, nullable, v) ==> r in failed
    ensures failed == [] <==> forall r :: r in rules ==> !Fails(r, nullable, v)
    ensures rules != [] && rules[0] == Required && Fails(Required, nullable, v) ==> failed == [Required]
    ensures Subsequence(failed, rules)
  {
    if rules == [] then []
    else if Fails(rules[0], nullable, v) then
      if rules[0].Required? then [rules[0]] else [rules[0]] + FailedRules(rules[1..], nullable, v)
    else FailedRules(rules[1..], nullable, v)
  }

  function Lookup(p: Payload, f: Field): Option<Value> {
    if f in p then Some(p[f]) else None
  }

  /** The failed rules of one field. */
  function FieldErrors(mode: Mode, p: Payload, f: Field): seq<Rule> {
    FailedRules(Rules(mode, f), Nullable in Rules(mode, f), Lookup(p, f))
  }

  lemma EveryField(f: Field)
    ensures f in AllFields
  {
  }

  /**
   * The validator's error bag: every field with at least one failed rule,
   * mapped to its failed rules in rule order. A failed `required` is
   * reported alone. The validator fails iff the bag is non-empty.
   */
  function Validate(mode: Mode, p: Payload): (errors: map<Field, seq<Rule>>)
    ensures forall f :: f in errors <==> exists r :: r in Rules(mode, f) && Fails(r, Nullable in Rules(mode, f), Lookup(p, f))
    ensures forall f :: f in errors ==> forall r :: r in errors[f] ==> r in Rules(mode, f) && Fails(r, Nullable in Rules(mode, f), Lookup(p, f))
    ensures forall f :: f in errors && !(Required in Rules(mode, f) && Fails(Required, false, Lookup(p, f))) ==>
      forall r :: r in Rules(mode, f) && Fails(r, Nullable in Rules(mode, f), Lookup(p, f)) ==> r in errors[f]
    ensures forall f :: Required in Rules(mode, f) && Fails(Required, false, Lookup(p, f)) ==> f in errors && errors[f] == [Required]
    ensures forall f :: f in errors ==> Subsequence(errors[f], Rules(mode, f))
  {
    forall f: Field
      ensures f in AllFields
      ensures FieldErrors(mode, p, f) != [] <==> exists r :: r in Rules(mode, f) && Fails(r, Nullable in Rules(mode, f), Lookup(p, f))
      ensures Required in Rules(mode, f) && Fails(Required, false, Lookup(p, f)) ==> FieldErrors(mode, p, f) == [Required]
    {
      EveryField(f);
      var failed := FieldErrors(mode, p, f);
      if failed != [] { assert failed[0] in failed; }
    }
    map f | f in AllFields && FieldErrors(mode, p, f) != [] :: FieldErrors(mode, p, f)
  }

  /** A nullable text field: absent, null or a string. */
  predicate NullableText(p: Payload, f: Field) {
    f in p ==> p[f].Null? || p[f].Str?
  }

  /** A nullable status field: absent, null or one of the three names. */
  predicate NullableStatus(p: Payload) {
    StatusField in p ==> p[StatusField].Null? || (p[StatusField].Str? && ParseStatus(p[StatusField].text).Some?)
  }

  /** A title that `required|string|max:255` admits. */
  predicate GoodTitle(v: Value) {
    v.Str? && !Blank(v.text) && |v.text| <= TitleLimit
  }

  /** What `store` admits, stated field by field. */
  predicate StoreAcceptable(p: Payload) {
    && TitleField in p && GoodTitle(p[TitleField])
    && NullableText(p, DetailsField)
    && NullableStatus(p)
  }

  /** What `update` admits, stated field by field. */
  predicate UpdateAcceptable(p: Payload) {
    && (TitleField in p ==> p[TitleField].Null? || (p[TitleField].Str? && |p[TitleField].text| <= TitleLimit))
    && NullableText(p, DetailsField)
    && NullableStatus(p)
  }

  /** A field has no errors iff none of its rules fails. */
  lemma NoFieldErrors(mode: Mode, p: Payload, f: Field)
    ensures FieldErrors(mode, p, f) == [] <==>
      forall r :: r in Rules(mode, f) ==> !Fails(r, Nullable in Rules(mode, f), Lookup(p, f))
  {
    var failed := FieldErrors(mode, p, f);
    if failed != [] {
      assert failed[0] in failed;
    }
  }

  /** The error bag is empty iff each of the three fields is free of errors. */
  lemma EmptyBag(mode: Mode, p: Payload)
    ensures Validate(mode, p) == map[] <==>
      FieldErrors(mode, p, TitleField) == [] && FieldErrors(mode, p, DetailsField) == [] && FieldErrors(mode, p, StatusField) == []
  {
    Reported(mode, p, TitleField);
    Reported(mode, p, DetailsField);
    Reported(mode, p, StatusField);
    var errors := Validate(mode, p);
    if errors != map[] {
      var f :| f in errors;
      NoFieldErrors(mode, p, f);
    }
  }

  lemma TitlePasses(mode: Mode, p: Payload)
    ensures FieldErrors(mode, p, TitleField) == [] <==>
      if mode == Create then TitleField in p && GoodTitle(p[TitleField])
      else TitleField in p ==> p[TitleField].Null? || (p[TitleField].Str? && |p[TitleField].text| <= TitleLimit)
  {
    NoFieldErrors(mode, p, TitleField);
    var v := Lookup(p, TitleField);
    var nullable := mode == Modify;
    var rules := Rules(mode, TitleField);
    assert rules == [if mode == Create then Required else Nullable, IsString, Max(TitleLimit)];
    assert rules[0] in rules && IsString in rules && Max(TitleLimit) in rules;
    var passes := !Fails(rules[0], nullable, v) && !Fails(IsString, nullable, v) && !Fails(Max(TitleLimit), nullable, v);
    assert (forall r :: r in rules ==> !Fails(r, nullable, v)) <==> passes;
    if mode == Create {
      assert passes <==> TitleField in p && GoodTitle(p[TitleField]);
    } else {
      assert passes <==> (TitleField in p ==> p[TitleField].Null? || (p[TitleField].Str? && |p[TitleField].text| <= TitleLimit));
    }
  }

  lemma DetailsPasses(mode: Mode, p: Payload)
    ensures FieldErrors(mode, p, DetailsField) == [] <==> NullableText(p, DetailsField)
  {
    NoFieldErrors(mode, p, DetailsField);
    assert Rules(mode, DetailsField) == [Nullable, IsString];
  }

  lemma StatusPasses(mode: Mode, p: Payload)
    ensures FieldErrors(mode, p, StatusField) == [] <==> NullableStatus(p)
  {
    NoFieldErrors(mode, p, StatusField);
    var rules := Rules(mode, StatusField);
    var v := Lookup(p, StatusField);
    assert rules == [Nullable, In(StatusNames)];
    assert In(StatusNames) in rules;
    assert (forall r :: r in rules ==> !Fails(r, true, v)) <==> !Fails(In(StatusNames), true, v);
    if StatusField in p && p[StatusField].Str? {
      assert ParseStatus(p[StatusField].text).Some? <==> p[StatusField].text in StatusNames;
    }
  }

  /** The create rules pass exactly on the payloads described by StoreAcceptable. */
  lemma StoreRulesMeaning(p: Payload)
    ensures Validate(Create, p) == map[] <==> StoreAcceptable(p)
  {
    EmptyBag(Create, p);
    TitlePasses(Create, p);
    DetailsPasses(Create, p);
    StatusPasses(Create, p);
  }

  /** The modify rules pass exactly on the payloads described by UpdateAcceptable. */
  lemma UpdateRulesMeaning(p: Payload)
    ensures Validate(Modify, p) == map[] <==> UpdateAcceptable(p)
  {
    EmptyBag(Modify, p);
    TitlePasses(Modify, p);
    DetailsPasses(Modify, p);
    StatusPasses(Modify, p);
  }

  /** A field's non-empty failure list is what the error bag holds for it. */
  lemma Reported(mode: Mode, p: Payload, f: Field)
    ensures FieldErrors(mode, p, f) != [] ==> f in Validate(mode, p) && Validate(mode, p)[f] == FieldErrors(mode, p, f)
  {
    EveryField(f);
  }

  /** On create an absent title fails `required` alone. */
  lemma MissingTitleErrors(p: Payload)
    requires TitleField !in p
    ensures TitleField in Validate(Create, p) && Validate(Create, p)[TitleField] == [Required]
  {
    Reported(Create, p, TitleField);
  }

  /** On create a null title fails `required` alone: `string` is not checked after it. */
  lemma NullTitleErrors(p: Payload)
    requires TitleField in p && p[TitleField].Null?
    ensures TitleField in Validate(Create, p) && Validate(Create, p)[TitleField] == [Required]
  {
    assert Rules(Create, TitleField) == [Required, IsString, Max(TitleLimit)];
    assert FieldErrors(Create, p, TitleField) == [Required];
    Reported(Create, p, TitleField);
  }

  /**
   * On create a blank string or an empty list as title fails `required`
   * alone, however long it is: `string` and `max:255` are not checked after it.
   */
  lemma BlankTitleErrors(p: Payload)
    requires TitleField in p
    requires (p[TitleField].Str? && Blank(p[TitleField].text)) || p[TitleField] == List(0)
    ensures TitleField in Validate(Create, p) && Validate(Create, p)[TitleField] == [Required]
  {
    assert Rules(Create, TitleField) == [Required, IsString, Max(TitleLimit)];
    assert FieldErrors(Create, p, TitleField) == [Required];
    Reported(Create, p, TitleField);
  }

  /** In either mode a non-blank title over 255 characters fails `max:255` alone. */
  lemma LongTitleErrors(mode: Mode, p: Payload)
    requires TitleField in p && p[TitleField].Str? && !Blank(p[TitleField].text)
    requires |p[TitleField].text| > TitleLimit
    ensures TitleField in Validate(mode, p) && Validate(mode, p)[TitleField] == [Max(TitleLimit)]
  {
    var rules := Rules(mode, TitleField);
    var v := Some(p[TitleField]);
    assert rules[1..][1..] == [Max(TitleLimit)];
    assert FailedRules(rules[1..][1..], mode == Modify, v) == [Max(TitleLimit)];
    assert FailedRules(rules[1..], mode == Modify, v) == [Max(TitleLimit)];
    assert FieldErrors(mode, p, TitleField) == [Max(TitleLimit)];
    Reported(mode, p, TitleField);
  }

  /** In either mode a present, non-null status outside the three names fails `in:` alone. */
  lemma BadStatusErrors(mode: Mode, p: Payload)
    requires StatusField in p && !p[StatusField].Null?
    requires !(p[StatusField].Str? && p[StatusField].text in StatusNames)
    ensures StatusField in Validate(mode, p) && Validate(mode, p)[StatusField] == [In(StatusNames)]
  {
    var rules := [Nullable, In(StatusNames)];
    var v := Some(p[StatusField]);
    assert Rules(mode, StatusField) == rules;
    assert rules[1..] == [In(StatusNames)];
    assert FailedRules(rules[1..], true, v) == [In(StatusNames)];
    assert FieldErrors(mode, p, StatusField) == [In(StatusNames)];
    Reported(mode, p, StatusField);
  }

  /** In either mode present details that are neither null nor a string fail `string` alone. */
  lemma BadDetailsErrors(mode: Mode, p: Payload)
    requires DetailsField in p && !p[DetailsField].Null? && !p[DetailsField].Str?
    ensures DetailsField in Validate(mode, p) && Validate(mode, p)[DetailsField] == [IsString]
  {
    var rules := [Nullable, IsString];
    var v := Some(p[DetailsField]);
    assert Rules(mode, DetailsField) == rules;
    assert rules[1..] == [IsString];
    assert FailedRules(rules[1..], true, v) == [IsString];
    assert FieldErrors(mode, p, DetailsField) == [IsString];
    Reported(mode, p, DetailsField);
  }

  /**
   * Only the title is required, and only on create: every other absent field,
   * and every absent field on update, passes.
   */
  lemma AbsentFieldsPass(mode: Mode, p: Payload, f: Field)
    requires f !in p
    requires mode == Modify || f != TitleField
    ensures f !in Validate(mode, p)
  {
    var rules := Rules(mode, f);
    forall r | r in rules ensures !Fails(r, Nullable in rules, None) {
      assert r != Required;
    }
  }

  /** Whatever the create rules admit, the modify rules admit. */
  lemma CreateRulesStricter(p: Payload)
    ensures Validate(Create, p) == map[] ==> Validate(Modify, p) == map[]
  {
    StoreRulesMeaning(p);
    UpdateRulesMeaning(p);
  }
}
