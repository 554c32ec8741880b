/** `calculateHash` of `api/store.js`: the `hashLength` gate, and the hash as the
    base-48 encoding of a double 64-bit FNV digest of the URL. */
module HashDeriver {
  import opened Wrappers
  import opened HttpErrors
  import Base48

  /** The `hashLength` property of the request body: absent, a number, or a
      value whose `Number(...)` is `NaN` (such as `"foo"`). */
  datatype LengthField = Absent | Numeric(n: int) | NonNumeric

  const MinLength: int := 7
  const MaxLength: int := 12
  const DefaultLength: int := 10
  const LengthMessage: string := "'hashLength' must be a value in the range [7, 12]"

  /** The hashing collaborators, outside this model: the 64-bit FNV hash of a
      string (`fnv-plus`) and the base-10 rendering of a big integer (`jsbn`). */
  datatype Digests = Digests(fnv64: string -> nat, decimal: nat -> string)

  const TwoTo64: nat := 0x1_0000_0000_0000_0000

  /** The FNV hash is a 64-bit unsigned value. */
  ghost predicate Fits64(d: Digests) {
    forall s :: d.fnv64(s) < TwoTo64
  }

  /** Step 1 and 2 of the hash: hash the URL, then hash the decimal text of that hash. */
  function DoubleDigest(d: Digests, longUrl: string): nat {
    d.fnv64(d.decimal(d.fnv64(longUrl)))
  }

  /** The record passed on to the store: the URL and its short hash. */
  datatype Derived = Derived(longUrl: string, hash: string)

  /** Whether a (defaulted) length passes the source's gate
      `!Number(hashLength) || hashLength < min || hashLength > max`. */
  predicate Rejected(field: LengthField) {
    field.NonNumeric? || (field.Numeric? && (field.n == 0 || field.n < MinLength || field.n > MaxLength))
  }

  /** The length the hash is cut to: the default for an absent field, the
      number itself when it lies in `[7, 12]`, a 400 error otherwise. */
  function HashLength(field: LengthField): (r: Result<int, Error>)
    ensures r.Ok? <==> field.Absent? || (field.Numeric? && MinLength <= field.n <= MaxLength)
    ensures field.Absent? ==> r == Ok(DefaultLength)
    ensures field.Numeric? && r.Ok? ==> r.value == field.n
    ensures r.Ok? ==> MinLength <= r.value <= MaxLength
    ensures r.Err? ==> r.error == HttpError(400, LengthMessage)
  {
    var defaulted := if field.Absent? then Numeric(DefaultLength) else field;
    if Rejected(defaulted) then Err(HttpError(400, LengthMessage)) else Ok(defaulted.n)
  }

  /** `calculateHash(hashLength)(longUrl)`: the gate runs before any hashing;
      on success the URL is passed on unchanged with the base-48 encoding of
      its double digest, cut to the requested length. */
  function CalculateHash(field: LengthField, d: Digests, longUrl: string): (r: Result<Derived, Error>)
    ensures r.Ok? <==> field.Absent? || (field.Numeric? && MinLength <= field.n <= MaxLength)
    ensures r.Err? ==> r.error == HttpError(400, LengthMessage)
    ensures r.Ok? ==> r.value.longUrl == longUrl && 1 <= |r.value.hash| <= HashLength(field).value
  {
    var length :- HashLength(field);
    Ok(Derived(longUrl, Base48.Encode(DoubleDigest(d, longUrl), length)))
  }

  /** The hash is drawn from the alphabet and decodes to the double digest
      modulo `48^length`: it keeps the least significant base-48 digits. */
  lemma HashDecodesToDigest(field: LengthField, d: Digests, longUrl: string)
    requires CalculateHash(field, d, longUrl).Ok?
    ensures var hash := CalculateHash(field, d, longUrl).value.hash;
            && (forall i :: 0 <= i < |hash| ==> hash[i] in Base48.Alphabet)
            && Base48.Decode(hash) == Some(DoubleDigest(d, longUrl) % Base48.Pow48(HashLength(field).value))
  {
    var length := HashLength(field).value;
    Base48.EncodeDecode(DoubleDigest(d, longUrl), length);
    Base48.EncodeUsesAlphabet(DoubleDigest(d, longUrl), length);
  }

  /** The hash is shorter than requested exactly when the double digest has
      fewer base-48 digits than that; it is never padded. */
  lemma HashFullLength(field: LengthField, d: Digests, longUrl: string)
    requires CalculateHash(field, d, longUrl).Ok?
    ensures |CalculateHash(field, d, longUrl).value.hash| == HashLength(field).value <==>
              Base48.Pow48(HashLength(field).value - 1) <= DoubleDigest(d, longUrl)
  {
    Base48.EncodeFullWidth(DoubleDigest(d, longUrl), HashLength(field).value);
  }

  /** `48^12` exceeds every 64-bit value, `48^11` does not. */
  lemma TwelveDigitsHold64Bits()
    ensures Base48.Pow48(11) < TwoTo64 < Base48.Pow48(12)
  {
    assert Base48.Pow48(11) == 3116402981210161152;
    assert Base48.Pow48(12) == 149587343098087735296;
  }

  /** With 64-bit digests and `hashLength` 12 nothing is cut: the hash is the
      full base-48 representation of the double digest and decodes to it. */
  lemma LengthTwelveIsLossless(d: Digests, longUrl: string)
    requires Fits64(d)
    ensures CalculateHash(Numeric(12), d, longUrl).Ok?
    ensures CalculateHash(Numeric(12), d, longUrl).value.hash ==
              Base48.Render(Base48.Digits(DoubleDigest(d, longUrl)))
    ensures Base48.Decode(CalculateHash(Numeric(12), d, longUrl).value.hash) == Some(DoubleDigest(d, longUrl))
  {
    var digest := DoubleDigest(d, longUrl);
    TwelveDigitsHold64Bits();
    Base48.EncodeUntruncated(digest, 12);
    Base48.EncodeRoundTrip(digest, 12);
  }
}
