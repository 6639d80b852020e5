/**
  Transaction codes (`tx_code`) and how the three pre-authorized code stores keep and compare them.

  The in-memory store keeps the code itself; DynamoDB and Firestore keep an HMAC of it. A keyed hash
  is modelled symbolically: `Hmac(input)` is a constructor, so equal digests mean equal inputs, and the
  input is the text as UTF-8 keeps it.
 */
module TxCodes {
  import opened Prelude
  import opened JsStrings

  const MAX_SAFE_INTEGER := 9007199254740991

  type SafeInteger = n: int | -MAX_SAFE_INTEGER <= n <= MAX_SAFE_INTEGER

  /**
    A JavaScript `string | number`. Numbers other than safe integers (fractions, exponents, infinity)
    are known by the text JavaScript writes for them; NaN, which equals nothing, is left out.
   */
  datatype TxCode = Text(s: JsString) | Number(n: SafeInteger) | OtherNumber(written: JsString)

  datatype InputMode = Numeric | Textual

  datatype TxHash = Hmac(input: JsString)

  datatype Verdict = Match | Missing | Mismatch | Unexpected

  predicate IsDigit(u: CodeUnit) {
    0x30 <= u <= 0x39
  }

  predicate IsDigitString(s: JsString) {
    s != [] && forall i | 0 <= i < |s| :: IsDigit(s[i])
  }

  function Decimal(n: nat): (s: JsString)
    ensures IsDigitString(s)
  {
    var last: JsString := [0x30 + n % 10];
    if n < 10 then last else Decimal(n / 10) + last
  }

  /** The text of a code, as `hashTxCode` takes it. */
  function Rendered(v: TxCode): JsString {
    match v
    case Text(s) => s
    case Number(n) => if n < 0 then [0x2D] + Decimal(-n) else Decimal(n)
    case OtherNumber(written) => written
  }

  /** A keyed hash of the text's UTF-8 form. */
  function HashText(s: JsString): TxHash {
    Hmac(WellFormed(s))
  }

  function ToDigitString(v: TxCode): Option<JsString> {
    match v
    case Number(n) => if 0 <= n then Some(Decimal(n)) else None
    case OtherNumber(_) => None
    case Text(s) => if IsDigitString(s) then Some(s) else None
  }

  /** Whether `save` takes this code at all; otherwise it raises `invalid_tx_code`. */
  predicate Savable(mode: InputMode, tx: Option<TxCode>) {
    tx.None? || mode == Textual || ToDigitString(tx.value).Some?
  }

  /** What the in-memory store keeps: the canonical digit string, or in text mode the value as given. */
  function KeptInMemory(mode: InputMode, tx: Option<TxCode>): Option<TxCode>
    requires Savable(mode, tx)
  {
    if tx.None? || mode == Textual then tx else Some(Text(ToDigitString(tx.value).value))
  }

  /** What the cloud stores keep; `hashTxCode` renders a number before hashing it. */
  function KeptInCloud(mode: InputMode, tx: Option<TxCode>): Option<TxHash>
    requires Savable(mode, tx)
  {
    match tx
    case None => None
    case Some(v) =>
      if mode == Numeric then Some(HashText(ToDigitString(v).value)) else Some(HashText(Rendered(v)))
  }

  function MemoryVerdict(kept: Option<TxCode>, mode: InputMode, given: Option<TxCode>): Verdict {
    match kept
    case None => if given.None? then Match else Unexpected
    case Some(expected) =>
      if given.None? then Missing
      else if mode == Numeric then
        var e, a := ToDigitString(expected), ToDigitString(given.value);
        if e.Some? && a.Some? && e == a then Match else Mismatch
      else
        if expected == given.value then Match else Mismatch
  }

  function CloudVerdict(kept: Option<TxHash>, mode: InputMode, given: Option<TxCode>): Verdict {
    match kept
    case None => if given.None? then Match else Unexpected
    case Some(hash) =>
      if given.None? then Missing
      else if mode == Numeric then
        var a := ToDigitString(given.value);
        if a.Some? && hash == HashText(a.value) then Match else Mismatch
      else
        if given.value.Text? && hash == HashText(given.value.s) then Match else Mismatch
  }

  /**
    The codes both kinds of store compare alike: in text mode neither numbers, nor texts that some other
    text encodes like, which are those with a surrogate on its own or with U+FFFD.
   */
  predicate ComparesAlike(mode: InputMode, tx: Option<TxCode>) {
    mode == Textual && tx.Some? ==> tx.value.Text? && Distinctive(tx.value.s)
  }

  /** A guess the cloud takes for such a code, and memory does not. */
  function Imposter(v: TxCode): TxCode {
    Text(if v.Text? then Lookalike(v.s) else Rendered(v))
  }

  lemma DigitsEncodeAsThemselves(s: JsString)
    requires IsDigitString(s)
    ensures WellFormed(s) == s
  {
    WellFormedAfter(s, []);
    assert s + [] == s;
  }

  /**
    Hashing does not change which guesses are right, for exactly the saved codes that `ComparesAlike`
    names. A number saved in text mode is matched by the number in memory and by its text in the
    cloud, and a text that others encode like is matched by all of them in the cloud.
   */
  lemma VerdictsAgree(mode: InputMode, tx: Option<TxCode>)
    requires Savable(mode, tx)
    ensures ComparesAlike(mode, tx) <==>
            forall given :: CloudVerdict(KeptInCloud(mode, tx), mode, given) ==
                            MemoryVerdict(KeptInMemory(mode, tx), mode, given)
  {
    if !ComparesAlike(mode, tx) {
      ImposterMatchesInCloudOnly(tx.value);
    } else if tx.Some? {
      forall given: Option<TxCode> | given.Some?
        ensures CloudVerdict(KeptInCloud(mode, tx), mode, given) == MemoryVerdict(KeptInMemory(mode, tx), mode, given)
      {
        OneGuessAgrees(mode, tx.value, given.value);
      }
    }
  }

  lemma OneGuessAgrees(mode: InputMode, v: TxCode, given: TxCode)
    requires Savable(mode, Some(v)) && ComparesAlike(mode, Some(v))
    ensures CloudVerdict(KeptInCloud(mode, Some(v)), mode, Some(given)) ==
            MemoryVerdict(KeptInMemory(mode, Some(v)), mode, Some(given))
  {
    if mode == Numeric {
      DigitsEncodeAsThemselves(ToDigitString(v).value);
      if ToDigitString(given).Some? {
        DigitsEncodeAsThemselves(ToDigitString(given).value);
      }
    } else if given.Text? && WellFormed(given.s) == v.s {
      OnlyItselfEncodesAs(v.s, given.s);
    }
  }

  lemma ImposterMatchesInCloudOnly(v: TxCode)
    requires !ComparesAlike(Textual, Some(v))
    ensures CloudVerdict(KeptInCloud(Textual, Some(v)), Textual, Some(Imposter(v))) == Match
    ensures MemoryVerdict(KeptInMemory(Textual, Some(v)), Textual, Some(Imposter(v))) == Mismatch
  {
    if v.Text? {
      LookalikeEncodesAs(v.s);
    }
  }

  /** The disagreement on one number, in both directions. */
  lemma NumberInTextMode(v: TxCode)
    requires !v.Text?
    ensures var tx, rendered, same := Some(v), Some(Text(Rendered(v))), Some(v);
            && CloudVerdict(KeptInCloud(Textual, tx), Textual, rendered) == Match
            && MemoryVerdict(KeptInMemory(Textual, tx), Textual, rendered) == Mismatch
            && CloudVerdict(KeptInCloud(Textual, tx), Textual, same) == Mismatch
            && MemoryVerdict(KeptInMemory(Textual, tx), Textual, same) == Match
  {
  }

  // ---------------------------------------------------------------------------------------------
  // Right guesses
  // ---------------------------------------------------------------------------------------------

  /** The number a string of digits writes. */
  function NumberOf(s: JsString): nat
    requires forall i | 0 <= i < |s| :: IsDigit(s[i])
  {
    if s == [] then 0
    else
      assert IsDigit(s[|s| - 1]);
      NumberOf(s[..|s| - 1]) * 10 + (s[|s| - 1] as int - 0x30)
  }

  /** A number's decimal text writes that number, without a leading zero, and no other text does both. */
  lemma {:induction false} DecimalExactly(n: nat, s: JsString)
    requires IsDigitString(s)
    ensures s == Decimal(n) <==> NumberOf(s) == n && (|s| > 1 ==> s[0] != 0x30)
  {
    var m := |s| - 1;
    if m == 0 {
      assert s[..0] == [];
      assert n >= 10 ==> |Decimal(n)| > 1;
    } else {
      assert IsDigitString(s[..m]);
      DecimalExactly(n / 10, s[..m]);
      assert s == s[..m] + [s[m]];
      if s == Decimal(n) {
        assert n >= 10;
        assert Decimal(n) == Decimal(n / 10) + [0x30 + n % 10];
        assert s[..m] == Decimal(n / 10);
        LeadingDigit(n / 10);
      } else if NumberOf(s) == n && s[0] != 0x30 {
        AtLeastTen(s);
      }
    }
  }

  lemma {:induction false} LeadingDigit(n: nat)
    ensures n > 0 ==> Decimal(n)[0] != 0x30
  {
    if n >= 10 {
      LeadingDigit(n / 10);
    }
  }

  lemma {:induction false} AtLeastTen(s: JsString)
    requires IsDigitString(s) && |s| > 1 && s[0] != 0x30
    ensures NumberOf(s) >= 10
  {
    if |s| == 2 {
      assert s[..1][..0] == [] && s[..1][0] == s[0];
    } else {
      assert s[..|s| - 1][0] == s[0];
      AtLeastTen(s[..|s| - 1]);
    }
  }

  /** In numeric mode `save` takes exactly the non-negative safe integers and the texts of digits. */
  lemma SavableExactlyWhen(mode: InputMode, tx: Option<TxCode>)
    ensures Savable(mode, tx) <==>
            match tx
            case None => true
            case Some(Number(n)) => mode == Textual || n >= 0
            case Some(OtherNumber(_)) => mode == Textual
            case Some(Text(s)) => mode == Textual || (s != [] && forall i :: 0 <= i < |s| ==> 0x30 <= s[i] <= 0x39)
  {
  }

  /**
    Which guess is right: none for a code saved without; in text mode the value itself; and in numeric
    mode what writes the same digits, whether given as a number or as text.
   */
  lemma RightGuessExactly(mode: InputMode, tx: Option<TxCode>, given: Option<TxCode>)
    requires Savable(mode, tx)
    ensures MemoryVerdict(KeptInMemory(mode, tx), mode, given) ==
            if tx.None? then (if given.None? then Match else Unexpected)
            else if given.None? then Missing
            else if mode == Textual then (if given == tx then Match else Mismatch)
            else if SameDigits(tx.value, given.value) then Match else Mismatch
  {
    if tx.Some? && given.Some? && mode == Numeric {
      DigitsDecide(tx.value, given.value);
    }
  }

  /** Two codes write the same digits. */
  ghost predicate SameDigits(a: TxCode, b: TxCode) {
    match (a, b)
    case (Text(s), Text(t)) => s == t
    case (Number(m), Number(n)) => m == n
    case (Number(m), Text(t)) => m >= 0 && WritesNumber(t, m)
    case (Text(s), Number(n)) => n >= 0 && WritesNumber(s, n)
    case _ => false
  }

  ghost predicate WritesNumber(s: JsString, n: nat) {
    IsDigitString(s) && NumberOf(s) == n && (|s| > 1 ==> s[0] != 0x30)
  }

  lemma DigitsDecide(a: TxCode, b: TxCode)
    requires ToDigitString(a).Some?
    ensures ToDigitString(b) == ToDigitString(a) <==> SameDigits(a, b)
  {
    match (a, b)
    case (Number(m), Number(n)) =>
      if n >= 0 {
        DecimalExactly(m, Decimal(m));
        DecimalExactly(n, Decimal(n));
      }
    case (Number(m), Text(t)) =>
      if IsDigitString(t) {
        DecimalExactly(m, t);
      }
    case (Text(s), Number(n)) =>
      if n >= 0 {
        DecimalExactly(n, s);
      }
    case _ =>
  }
}
