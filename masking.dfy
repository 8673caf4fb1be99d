/**
 * `mascarar` (app_expedicao.py:15-20): three substitutions applied one after
 * the other, tax IDs (CNPJ/CPF), then phone numbers, then e-mail addresses,
 * each match replaced by a fixed placeholder.
 */
module Masking {
  import opened Text
  import opened Pattern

  /** `\b\d{2,3}\.?\d{3}\.?\d{3}[\/\-]?\d{4}\-?\d{2}\b` */
  const TaxIdPattern: Pattern := [
    WordBoundary, Rep(Digit, 2, AtMost(3)), Optional(OneOf(".")), Times(Digit, 3), Optional(OneOf(".")),
    Times(Digit, 3), Optional(OneOf("/-")), Times(Digit, 4), Optional(OneOf("-")), Times(Digit, 2), WordBoundary]
  const TaxIdMask := "***.***.***-**"

  /** `\(?\+?\d{2}\)?\s?\d{4,5}\-?\d{4}` */
  const PhonePattern: Pattern := [
    Optional(OneOf("(")), Optional(OneOf("+")), Times(Digit, 2), Optional(OneOf(")")), Optional(Space),
    Rep(Digit, 4, AtMost(5)), Optional(OneOf("-")), Times(Digit, 4)]
  const PhoneMask := "***-****"

  /** `[A-Za-z0-9._%+-]+@[A-Za-z0-9.-]+\.[A-Za-z]{2,}` */
  const EmailPattern: Pattern := [
    Plus(Union(Upper, Union(Lower, Union(Digit, OneOf("._%+-"))))), Once(OneOf("@")),
    Plus(Union(Upper, Union(Lower, Union(Digit, OneOf(".-"))))), Once(OneOf(".")),
    Rep(Union(Upper, Lower), 2, Unbounded)]
  const EmailMask := "[email oculto]"

  /** Text with no digit and no `@`, which none of the three patterns can match. */
  predicate Plain(s: string) {
    forall k :: 0 <= k < |s| ==> !IsDigit(s[k]) && s[k] != '@'
  }

  /**
   * `mascarar`: the text after the three substitutions, in the source's order.
   * Plain text comes back unchanged, and every character of the result comes
   * from the text or from a placeholder, so no digit and no `@` appears that
   * was not already there.
   */
  function Mask(texto: string): (r: string)
    ensures Plain(texto) ==> r == texto
    ensures forall c :: c in r && (IsDigit(c) || c == '@') ==> c in texto
  {
    var t := texto;
    var t := Sub(TaxIdPattern, TaxIdMask, t);
    var t := Sub(PhonePattern, PhoneMask, t);
    var t := Sub(EmailPattern, EmailMask, t);
    assert Plain(texto) ==> t == texto by {
      if Plain(texto) {
        SubWithoutClass(TaxIdPattern, TaxIdMask, texto, 1);
        SubWithoutClass(PhonePattern, PhoneMask, texto, 2);
        SubWithoutClass(EmailPattern, EmailMask, texto, 1);
      }
    }
    t
  }

  /** None of the three placeholders contains a digit or an `@`. */
  lemma PlaceholdersPlain()
    ensures Plain(TaxIdMask) && Plain(PhoneMask) && Plain(EmailMask)
  {
  }

  /** Every match of the three patterns is non-empty, so `re.sub` never inserts at an empty match. */
  lemma MatchesAreNonEmpty(s: string, i: nat)
    requires i <= |s|
    ensures MatchAt(TaxIdPattern, s, i).Some? ==> MatchAt(TaxIdPattern, s, i).value[|TaxIdPattern|] > i
    ensures MatchAt(PhonePattern, s, i).Some? ==> MatchAt(PhonePattern, s, i).value[|PhonePattern|] > i
    ensures MatchAt(EmailPattern, s, i).Some? ==> MatchAt(EmailPattern, s, i).value[|EmailPattern|] > i
  {
    if MatchAt(TaxIdPattern, s, i).Some? { MatchNonEmpty(TaxIdPattern, s, MatchAt(TaxIdPattern, s, i).value, 1); }
    if MatchAt(PhonePattern, s, i).Some? { MatchNonEmpty(PhonePattern, s, MatchAt(PhonePattern, s, i).value, 2); }
    if MatchAt(EmailPattern, s, i).Some? { MatchNonEmpty(EmailPattern, s, MatchAt(EmailPattern, s, i).value, 1); }
  }

  /** The placeholders start and end with `*`, which no class of the later passes admits, and hold no digit and no `@`. */
  lemma PlaceholdersApart()
    ensures Outside(PhonePattern, '*') && Outside(EmailPattern, '*')
    ensures TaxIdMask[0] == '*' && TaxIdMask[|TaxIdMask| - 1] == '*'
    ensures PhoneMask[0] == '*' && PhoneMask[|PhoneMask| - 1] == '*'
    ensures forall k :: 0 <= k < |TaxIdMask| ==> !In(TaxIdMask[k], Digit) && !In(TaxIdMask[k], OneOf("@"))
    ensures forall k :: 0 <= k < |PhoneMask| ==> !In(PhoneMask[k], OneOf("@"))
  {
    assert forall k :: 0 <= k < |TaxIdMask| ==> TaxIdMask[k] in "*.-";
    assert forall k :: 0 <= k < |PhoneMask| ==> PhoneMask[k] in "*-";
  }

  /**
   * A tax ID that `re.search` finds in the text shows up in the masked text
   * as its placeholder: the first match is replaced, and neither the phone
   * nor the e-mail pass can reach into the placeholder.
   */
  lemma MaskHidesTaxId(texto: string)
    requires Search(TaxIdPattern, texto).Some?
    ensures Contains(Mask(texto), TaxIdMask)
  {
    var t := Search(TaxIdPattern, texto).value;
    MatchNonEmpty(TaxIdPattern, texto, t, 1);
    SubFirstMatch(TaxIdPattern, TaxIdMask, texto);
    var t1 := Sub(TaxIdPattern, TaxIdMask, texto);
    assert StandsAt(t1, t[0], TaxIdMask);
    PlaceholdersApart();
    var b := SubKeeps(PhonePattern, PhoneMask, t1, t[0], TaxIdMask, 2);
    var t2 := Sub(PhonePattern, PhoneMask, t1);
    var c := SubKeeps(EmailPattern, EmailMask, t2, b, TaxIdMask, 1);
    ContainsAt(Mask(texto), TaxIdMask, c);
  }

  /** A phone number that `re.search` finds after the tax-ID pass shows up in the masked text as its placeholder. */
  lemma MaskHidesPhone(texto: string)
    requires Search(PhonePattern, Sub(TaxIdPattern, TaxIdMask, texto)).Some?
    ensures Contains(Mask(texto), PhoneMask)
  {
    var t1 := Sub(TaxIdPattern, TaxIdMask, texto);
    var t := Search(PhonePattern, t1).value;
    MatchNonEmpty(PhonePattern, t1, t, 2);
    SubFirstMatch(PhonePattern, PhoneMask, t1);
    var t2 := Sub(PhonePattern, PhoneMask, t1);
    assert StandsAt(t2, t[0], PhoneMask);
    PlaceholdersApart();
    var c := SubKeeps(EmailPattern, EmailMask, t2, t[0], PhoneMask, 1);
    ContainsAt(Mask(texto), PhoneMask, c);
  }

  /** An e-mail address that `re.search` finds after the first two passes shows up in the masked text as its placeholder. */
  lemma MaskHidesEmail(texto: string)
    requires Search(EmailPattern, Sub(PhonePattern, PhoneMask, Sub(TaxIdPattern, TaxIdMask, texto))).Some?
    ensures Contains(Mask(texto), EmailMask)
  {
    var t2 := Sub(PhonePattern, PhoneMask, Sub(TaxIdPattern, TaxIdMask, texto));
    var t := Search(EmailPattern, t2).value;
    MatchNonEmpty(EmailPattern, t2, t, 0);
    SubFirstMatch(EmailPattern, EmailMask, t2);
    var m := Mask(texto);
    assert StandsAt(m, t[0], EmailMask);
    ContainsAt(m, EmailMask, t[0]);
  }

  /**
   * `mascarar` step by step: `t` is reassigned by each substitution in turn.
   * The result is `Mask(texto)`; text without digits and `@` comes back
   * unchanged, and no digit or `@` appears that was not in the input.
   */
  method Mascarar(texto: string) returns (t: string)
    ensures t == Mask(texto)
    ensures Plain(texto) ==> t == texto
    ensures forall c :: c in t && (IsDigit(c) || c == '@') ==> c in texto
  {
    t := texto;
    t := Sub(TaxIdPattern, TaxIdMask, t);
    t := Sub(PhonePattern, PhoneMask, t);
    t := Sub(EmailPattern, EmailMask, t);
  }
}
