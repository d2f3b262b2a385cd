/** The canonical value domain from src/core/canonical.rs: which JSON trees it
    admits and the one form each of them gets. */
module Canonical {
  import opened Integers
  import opened Json
  import opened Keys
  import opened Wrappers

  datatype Violation =
    | IntegerOutOfRange(integer: int)
    | NotFiniteBinary64(float: Float)
    | DuplicateKey(key: string)

  predicate IsSafe(n: int) {
    -MAX_SAFE_INTEGER <= n <= MAX_SAFE_INTEGER
  }

  predicate IsFinite(x: Float) {
    x.Finite? || x.NegativeZero?
  }

  predicate IsIntegral(x: real) {
    x == x.Floor as real
  }

  function FloatValue(x: Float): real
    requires IsFinite(x)
  {
    if x.Finite? then x.value else 0.0
  }

  // ----- numbers -----

  function AsI64(n: Number): Option<I64> {
    match n
    case PosInt(u) => if u <= I64_MAX then Some(u) else None
    case NegInt(i) => Some(i)
    case Floating(_) => None
  }

  function NormalizeF64(x: Float): Result<Number, Violation> {
    if !IsFinite(x) then Err(NotFiniteBinary64(x))
    else if IsIntegral(FloatValue(x)) then
      var n := FloatValue(x).Floor;
      if IsSafe(n) then Ok(FromI64(n)) else Err(IntegerOutOfRange(n))
    else Ok(Floating(x))
  }

  function NormalizeNumber(n: Number): Result<Number, Violation> {
    if AsI64(n).Some? then
      if IsSafe(AsI64(n).value) then Ok(n) else Err(IntegerOutOfRange(AsI64(n).value))
    else if n.PosInt? then
      if n.natural <= MAX_SAFE_INTEGER then Ok(n) else Err(IntegerOutOfRange(n.natural))
    else NormalizeF64(n.float)
  }

  /** What a number denotes, whatever form it has. */
  function Denotes(n: Number): Option<real> {
    match n
    case PosInt(u) => Some(u as real)
    case NegInt(i) => Some(i as real)
    case Floating(x) => if IsFinite(x) then Some(FloatValue(x)) else None
  }

  /** The numbers serde_json can hold: negative integers in NegInt only. */
  predicate IsNumber(n: Number) {
    n.NegInt? ==> n.negative < 0
  }

  /** One form for each number of the domain. */
  predicate IsCanonicalNumber(n: Number) {
    match n
    case PosInt(u) => u <= MAX_SAFE_INTEGER
    case NegInt(i) => -MAX_SAFE_INTEGER <= i < 0
    case Floating(x) => x.Finite? && !IsIntegral(x.value)
  }

  /** A number is accepted exactly when it denotes a real that is not an unsafe
      integer, and the canonical form it gets denotes the same. */
  lemma NormalizeNumberMeans(n: Number)
    requires IsNumber(n)
    ensures
      NormalizeNumber(n).Ok? <==> Denotes(n).Some? && (IsIntegral(Denotes(n).value) ==> IsSafe(Denotes(n).value.Floor))
    ensures NormalizeNumber(n).Ok? ==>
              IsCanonicalNumber(NormalizeNumber(n).value) && Denotes(NormalizeNumber(n).value) == Denotes(n)
    ensures IsCanonicalNumber(n) <==> NormalizeNumber(n) == Ok(n)
  {}

  /** The forms themselves. Integers stay as they are; a binary64 value that is a
      safe integer, negative zero included, becomes that integer, and any other
      finite one stays a float. */
  lemma NumberForms(n: int, x: real)
    requires -9_007_199_254_740_991 <= n <= 9_007_199_254_740_991 && x.Floor as real != x
    ensures n >= 0 ==> NormalizeNumber(PosInt(n)) == Ok(PosInt(n))
    ensures n < 0 ==> NormalizeNumber(NegInt(n)) == Ok(NegInt(n))
    ensures NormalizeNumber(Floating(Finite(n as real))) == Ok(if n < 0 then NegInt(n) else PosInt(n))
    ensures NormalizeNumber(Floating(NegativeZero)) == Ok(PosInt(0))
    ensures NormalizeNumber(Floating(Finite(x))) == Ok(Floating(Finite(x)))
  {
    assert (n as real).Floor == n;
  }

  /** What is refused, with the number in the message. */
  lemma NumberFaults(n: int, x: Float)
    requires n < -9_007_199_254_740_991 || 9_007_199_254_740_991 < n
    requires x.Infinite? || x.NotANumber?
    ensures 0 <= n <= U64_MAX ==> NormalizeNumber(PosInt(n)) == Err(IntegerOutOfRange(n))
    ensures -I64_MAX - 1 <= n < 0 ==> NormalizeNumber(NegInt(n)) == Err(IntegerOutOfRange(n))
    ensures NormalizeNumber(Floating(Finite(n as real))) == Err(IntegerOutOfRange(n))
    ensures NormalizeNumber(Floating(x)) == Err(NotFiniteBinary64(x))
  {
    assert (n as real).Floor == n;
  }

  lemma CanonicalNumbersDiffer(a: Number, b: Number)
    requires IsCanonicalNumber(a) && IsCanonicalNumber(b) && Denotes(a) == Denotes(b)
    ensures a == b
  {
    if a.PosInt? {
      assert (a.natural as real).Floor == a.natural;
    } else if a.NegInt? {
      assert (a.negative as real).Floor == a.negative;
    }
    if b.PosInt? {
      assert (b.natural as real).Floor == b.natural;
    } else if b.NegInt? {
      assert (b.negative as real).Floor == b.negative;
    }
  }

  // ----- trees -----

  /** Every number of the tree satisfies the predicate. */
  ghost predicate Numbers(v: Value, p: Number -> bool) {
    match v
    case Number(n) => p(n)
    case Array(vs) => forall i :: 0 <= i < |vs| ==> Numbers(vs[i], p)
    case Object(fields) => forall k :: k in fields ==> Numbers(fields[k], p)
    case _ => true
  }

  predicate InDomain(n: Number) {
    IsNumber(n) && NormalizeNumber(n).Ok?
  }

  /** The tree with every number in its canonical form. */
  ghost function Normal(v: Value): (r: Value)
    requires Numbers(v, InDomain)
  {
    match v
    case Number(n) => Value.Number(NormalizeNumber(n).value)
    case Array(vs) => Array(seq(|vs|, i requires 0 <= i < |vs| => Normal(vs[i])))
    case Object(fields) => Object(map k | k in fields :: Normal(fields[k]))
    case _ => v
  }

  /** Two trees of the same shape whose numbers denote the same reals. */
  ghost predicate SameMeaning(a: Value, b: Value) {
    match a
    case Number(n) => b.Number? && Denotes(n) == Denotes(b.number)
    case Array(vs) =>
      b.Array? && |b.elements| == |vs| && forall i :: 0 <= i < |vs| ==> SameMeaning(vs[i], b.elements[i])
    case Object(fields) =>
      b.Object? && b.fields.Keys == fields.Keys && forall k :: k in fields ==> SameMeaning(fields[k], b.fields[k])
    case _ => a == b
  }

  lemma {:induction false} NormalIsCanonical(v: Value)
    requires Numbers(v, InDomain)
    ensures Numbers(Normal(v), IsCanonicalNumber) && SameMeaning(v, Normal(v))
  {
    match v
    case Number(n) => NormalizeNumberMeans(n);
    case Array(vs) =>
      forall i | 0 <= i < |vs| ensures Numbers(Normal(vs[i]), IsCanonicalNumber) && SameMeaning(vs[i], Normal(vs[i])) {
        NormalIsCanonical(vs[i]);
      }
    case Object(fields) =>
      forall k | k in fields
        ensures Numbers(Normal(fields[k]), IsCanonicalNumber) && SameMeaning(fields[k], Normal(fields[k]))
      {
        NormalIsCanonical(fields[k]);
      }
    case _ =>
  }

  /** Canonical trees are exactly the fixed points of normalisation. */
  lemma {:induction false} CanonicalIffFixed(v: Value)
    ensures Numbers(v, IsCanonicalNumber) <==> Numbers(v, InDomain) && Normal(v) == v
  {
    match v
    case Number(n) =>
      if IsNumber(n) {
        NormalizeNumberMeans(n);
      }
    case Array(vs) =>
      forall i | 0 <= i < |vs|
        ensures Numbers(vs[i], IsCanonicalNumber) <==> Numbers(vs[i], InDomain) && Normal(vs[i]) == vs[i]
      {
        CanonicalIffFixed(vs[i]);
      }
      if Numbers(v, InDomain) {
        assert Normal(v) == v ==> forall i :: 0 <= i < |vs| ==> vs[i] == Normal(v).elements[i];
        assert (forall i :: 0 <= i < |vs| ==> vs[i] == Normal(vs[i])) ==> Normal(v).elements == vs;
      }
    case Object(fields) =>
      forall k | k in fields
        ensures
          Numbers(fields[k], IsCanonicalNumber) <==> Numbers(fields[k], InDomain) && Normal(fields[k]) == fields[k]
      {
        CanonicalIffFixed(fields[k]);
      }
      if Numbers(v, InDomain) {
        assert Normal(v) == v ==> forall k :: k in fields ==> fields[k] == Normal(v).fields[k];
        assert (forall k :: k in fields ==> fields[k] == Normal(fields[k])) ==> Normal(v).fields == fields;
      }
    case _ =>
  }

  lemma {:induction false} CanonicalTreesDiffer(a: Value, b: Value)
    requires Numbers(a, IsCanonicalNumber) && Numbers(b, IsCanonicalNumber) && SameMeaning(a, b)
    ensures a == b
  {
    match a
    case Number(n) => CanonicalNumbersDiffer(n, b.number);
    case Array(vs) =>
      forall i | 0 <= i < |vs| ensures vs[i] == b.elements[i] {
        CanonicalTreesDiffer(vs[i], b.elements[i]);
      }
    case Object(fields) =>
      forall k | k in fields ensures fields[k] == b.fields[k] {
        CanonicalTreesDiffer(fields[k], b.fields[k]);
      }
      assert fields == b.fields;
    case _ =>
  }

  lemma {:induction false} SameMeaningSymmetric(a: Value, b: Value)
    requires SameMeaning(a, b)
    ensures SameMeaning(b, a)
  {
    match a
    case Array(vs) =>
      forall i | 0 <= i < |vs| ensures SameMeaning(b.elements[i], vs[i]) {
        SameMeaningSymmetric(vs[i], b.elements[i]);
      }
    case Object(fields) =>
      forall k | k in fields ensures SameMeaning(b.fields[k], fields[k]) {
        SameMeaningSymmetric(fields[k], b.fields[k]);
      }
    case _ =>
  }

  lemma {:induction false} SameMeaningTransitive(a: Value, b: Value, c: Value)
    requires SameMeaning(a, b) && SameMeaning(b, c)
    ensures SameMeaning(a, c)
  {
    match a
    case Array(vs) =>
      forall i | 0 <= i < |vs| ensures SameMeaning(vs[i], c.elements[i]) {
        SameMeaningTransitive(vs[i], b.elements[i], c.elements[i]);
      }
    case Object(fields) =>
      forall k | k in fields ensures SameMeaning(fields[k], c.fields[k]) {
        SameMeaningTransitive(fields[k], b.fields[k], c.fields[k]);
      }
    case _ =>
  }

  /** Two accepted trees normalise to the same tree exactly when they mean the
      same. */
  lemma NormalFormsDecideMeaning(a: Value, b: Value)
    requires Numbers(a, InDomain) && Numbers(b, InDomain)
    ensures Normal(a) == Normal(b) <==> SameMeaning(a, b)
  {
    NormalIsCanonical(a);
    NormalIsCanonical(b);
    SameMeaningSymmetric(b, Normal(b));
    if Normal(a) == Normal(b) {
      SameMeaningTransitive(a, Normal(a), b);
    }
    if SameMeaning(a, b) {
      SameMeaningSymmetric(a, Normal(a));
      SameMeaningTransitive(Normal(a), a, b);
      SameMeaningTransitive(Normal(a), b, Normal(b));
      CanonicalTreesDiffer(Normal(a), Normal(b));
    }
  }

  // ----- normalize_value -----

  /** The violation normalize_value reports: the first one in the order of the
      elements, and of the ascending keys of an object. */
  ghost predicate FirstRefused(v: Value, e: Violation) {
    match v
    case Number(n) => IsNumber(n) && NormalizeNumber(n) == Err(e)
    case Array(vs) =>
      exists i :: 0 <= i < |vs| && FirstRefused(vs[i], e) && forall j :: 0 <= j < i ==> Numbers(vs[j], InDomain)
    case Object(fields) =>
      var keys := KeysOf(fields.Keys);
      exists i ::
        && 0 <= i < |keys| && keys[i] in fields && FirstRefused(fields[keys[i]], e)
        && forall j :: 0 <= j < i ==> keys[j] in fields && Numbers(fields[keys[j]], InDomain)
    case _ => false
  }

  lemma {:induction false} RefusedIsOutside(v: Value, e: Violation)
    requires FirstRefused(v, e)
    ensures !Numbers(v, InDomain)
  {
    hide KeysOf;
    match v
    case Array(vs) =>
      var i :| 0 <= i < |vs| && FirstRefused(vs[i], e);
      RefusedIsOutside(vs[i], e);
    case Object(fields) =>
      var keys := KeysOf(fields.Keys);
      var i :| 0 <= i < |keys| && keys[i] in fields && FirstRefused(fields[keys[i]], e);
      RefusedIsOutside(fields[keys[i]], e);
    case _ =>
  }

  method NormalizeValue(v: Value) returns (result: Result<Value, Violation>)
    requires Numbers(v, IsNumber)
    ensures result.Ok? <==> Numbers(v, InDomain)
    ensures result.Ok? ==> result.value == Normal(v)
    ensures result.Err? ==> FirstRefused(v, result.error)
    decreases v, 1
  {
    hide NormalizeNumber;
    match v
    case Number(n) =>
      var number := NormalizeNumber(n);
      result := if number.Ok? then Ok(Value.Number(number.value)) else Err(number.error);
    case Array(vs) =>
      result := NormalizeElements(v);
    case Object(fields) =>
      result := NormalizeFields(v);
    case _ =>
      result := Ok(v);
  }

  method NormalizeElements(v: Value) returns (result: Result<Value, Violation>)
    requires Numbers(v, IsNumber) && v.Array?
    ensures result.Ok? <==> Numbers(v, InDomain)
    ensures result.Ok? ==> result.value == Normal(v)
    ensures result.Err? ==> FirstRefused(v, result.error)
    decreases v, 0
  {
    hide NormalizeNumber;
    var vs := v.elements;
    var normal := [];
    for i := 0 to |vs|
      invariant |normal| == i
      invariant forall j :: 0 <= j < i ==> Numbers(vs[j], InDomain) && normal[j] == Normal(vs[j])
    {
      var element := NormalizeValue(vs[i]);
      if element.Err? {
        assert FirstRefused(v, element.error);
        return Err(element.error);
      }
      normal := normal + [element.value];
    }
    result := Ok(Array(normal));
  }

  method NormalizeFields(v: Value) returns (result: Result<Value, Violation>)
    requires Numbers(v, IsNumber) && v.Object?
    ensures result.Ok? <==> Numbers(v, InDomain)
    ensures result.Ok? ==> result.value == Normal(v)
    ensures result.Err? ==> FirstRefused(v, result.error)
    decreases v, 0
  {
    hide NormalizeNumber;
    hide KeysOf;
    hide Ascending;
    var fields := v.fields;
    var keys := SortKeys(fields.Keys);
    var normal := map[];
    for i := 0 to |keys|
      invariant normal.Keys == set j | 0 <= j < i :: keys[j]
      invariant forall j :: 0 <= j < i ==> keys[j] in fields && Numbers(fields[keys[j]], InDomain)
      invariant
        forall k :: k in normal ==> k in fields && Numbers(fields[k], InDomain) && normal[k] == Normal(fields[k])
    {
      assert keys[i] in keys;
      var field := NormalizeValue(fields[keys[i]]);
      if field.Err? {
        assert FirstRefused(v, field.error);
        RefusedIsOutside(v, field.error);
        return Err(field.error);
      }
      normal := normal[keys[i] := field.value];
    }
    AllKeys(keys, fields.Keys);
    result := Ok(Object(normal));
  }
}
