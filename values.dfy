/** Values shared by every component: the nested field values of a stored
    document (and of a parsed configuration file), documents themselves,
    Python-style truthiness, the error kinds the core raises, and the decimal
    rendering of integers that `str(int)` performs. */
module Values {

  /** A document field value: null, a boolean, an integer, a string, a
      timestamp, a store-generated object id, a list or a nested mapping. */
  datatype Value =
    | Null
    | Bool(b: bool)
    | Int(i: int)
    | Str(s: string)
    | Time(t: int)
    | Oid(n: nat)
    | Arr(items: seq<Value>)
    | Obj(fields: map<string, Value>)

  /** A document: a mapping from field name to value. */
  type Doc = map<string, Value>

  /** The name of the identifier field every stored document carries. */
  const ID: string := "_id"

  datatype Option<T> = None | Some(value: T)

  /** The exceptions the modelled code raises or lets through. */
  datatype Error =
    | KeyError(key: string)        // a missing dictionary key
    | TypeError                    // a value of the wrong shape
    | ValueError                   // an argument out of range
    | AttributeError(name: string) // a missing attribute
    | DuplicateKeyError            // a write whose `_id` or unique-index key is taken
    | WriteError                   // an update that would change `_id`
    | CollectionInvalid            // explicit creation of an existing collection
    | BulkWriteError(failed: nat)  // an unordered batch with failed items
    | OperationFailure             // a query the server refuses

  datatype Result<T> = Ok(value: T) | Err(error: Error) {
    predicate IsFailure() { Err? }
    function PropagateFailure<U>(): Result<U>
      requires Err?
    {
      Err(error)
    }
    function Extract(): T
      requires Ok?
    {
      value
    }
  }

  datatype Outcome = Pass | Fail(error: Error) {
    predicate IsFailure() { Fail? }
    function PropagateFailure(): Outcome
      requires Fail?
    {
      this
    }
  }

  /** Applies `f` to every element in order, stopping at the first error, as
      a Python loop that appends each result to a list does. */
  function MapAll<A, B>(f: A -> Result<B>, xs: seq<A>): (r: Result<seq<B>>)
    ensures r.Ok? <==> forall i :: 0 <= i < |xs| ==> f(xs[i]).Ok?
    ensures r.Ok? ==> |r.value| == |xs| && forall i :: 0 <= i < |xs| ==> f(xs[i]) == Ok(r.value[i])
    ensures r.Err? ==> exists i :: 0 <= i < |xs| && f(xs[i]) == Err(r.error) &&
                                   forall j :: 0 <= j < i ==> f(xs[j]).Ok?
  {
    if xs == [] then Ok([])
    else
      var init := MapAll(f, xs[..|xs| - 1]);
      assert forall i :: 0 <= i < |xs| - 1 ==> xs[..|xs| - 1][i] == xs[i];
      if init.Err? then Err(init.error)
      else
        var last := f(xs[|xs| - 1]);
        if last.Err? then Err(last.error)
        else Ok(init.value + [last.value])
  }

  /** Python's truth value of a field value. */
  predicate Truthy(v: Value)
  {
    match v
    case Null => false
    case Bool(b) => b
    case Int(i) => i != 0
    case Str(s) => s != ""
    case Time(_) => true
    case Oid(_) => true
    case Arr(items) => items != []
    case Obj(fields) => fields != map[]
  }

  /** The value of field `f`, or null when the document lacks it (the value a
      store query sees for a missing field). */
  function FieldOrNull(d: Doc, f: string): (v: Value)
    ensures f in d ==> v == d[f]
    ensures f !in d ==> v == Null
  {
    if f in d then d[f] else Null
  }

  predicate IsDigit(c: char)
  {
    '0' <= c <= '9'
  }

  function DigitChar(d: nat): (c: char)
    requires d < 10
    ensures IsDigit(c)
  {
    "0123456789"[d]
  }

  /** The decimal digits of a natural number, most significant first. */
  function DecimalDigits(n: nat): (r: string)
    ensures 1 <= |r|
    ensures forall i :: 0 <= i < |r| ==> IsDigit(r[i])
    ensures n < 10 <==> |r| == 1
  {
    if n < 10 then [DigitChar(n)] else DecimalDigits(n / 10) + [DigitChar(n % 10)]
  }

  /** The value a decimal digit string denotes. */
  function DigitsValue(s: string): nat
    requires forall i :: 0 <= i < |s| ==> IsDigit(s[i])
  {
    if s == [] then 0
    else
      var last := s[|s| - 1];
      assert IsDigit(last);
      10 * DigitsValue(s[..|s| - 1]) + ((last as int) - ('0' as int))
  }

  /** Reading back the digits gives the number: the rendering is faithful. */
  lemma {:induction false} DecimalDigitsRoundTrip(n: nat)
    ensures DigitsValue(DecimalDigits(n)) == n
  {
    var r := DecimalDigits(n);
    if n >= 10 {
      DecimalDigitsRoundTrip(n / 10);
      assert r[..|r| - 1] == DecimalDigits(n / 10);
    }
  }

  /** Python's `str(i)` for an integer. */
  function IntStr(i: int): (r: string)
    ensures |r| >= 1
    ensures r[0] == '-' <==> i < 0
  {
    if i < 0 then "-" + DecimalDigits(-i) else DecimalDigits(i)
  }

  /** `:=`-style step of MapAll, for loops that append one result at a time. */
  lemma MapAllSnoc<A, B>(f: A -> Result<B>, xs: seq<A>, i: nat, acc: seq<B>, b: B)
    requires i < |xs| && MapAll(f, xs[..i]) == Ok(acc) && f(xs[i]) == Ok(b)
    ensures MapAll(f, xs[..i + 1]) == Ok(acc + [b])
  {
    assert xs[..i + 1][..i] == xs[..i];
  }

  /** The first failing element decides the error of the whole map. */
  lemma MapAllStops<A, B>(f: A -> Result<B>, xs: seq<A>, i: nat)
    requires i < |xs| && MapAll(f, xs[..i]).Ok? && f(xs[i]).Err?
    ensures MapAll(f, xs) == Err(f(xs[i]).error)
  {
    var r := MapAll(f, xs);
    forall j | 0 <= j < i ensures f(xs[j]).Ok? {
      assert xs[..i][j] == xs[j];
    }
    var k :| 0 <= k < |xs| && f(xs[k]) == Err(r.error) && forall j :: 0 <= j < k ==> f(xs[j]).Ok?;
    assert k == i;
  }

  /** A left fold that stops at the first error: a Python loop that updates
      an accumulator and may raise. */
  function Fold<S, A>(step: (S, A) -> Result<S>, init: S, xs: seq<A>): Result<S>
  {
    if xs == [] then Ok(init)
    else
      var s :- Fold(step, init, xs[..|xs| - 1]);
      step(s, xs[|xs| - 1])
  }

  lemma FoldSnoc<S, A>(step: (S, A) -> Result<S>, init: S, xs: seq<A>, i: nat, s: S)
    requires i < |xs| && Fold(step, init, xs[..i]) == Ok(s)
    ensures Fold(step, init, xs[..i + 1]) == step(s, xs[i])
  {
    assert xs[..i + 1][..i] == xs[..i];
  }

  /** Once the fold has failed, the rest of the input does not matter. */
  lemma {:induction false} FoldErrSticks<S, A>(step: (S, A) -> Result<S>, init: S, xs: seq<A>, i: nat)
    requires i <= |xs| && Fold(step, init, xs[..i]).Err?
    ensures Fold(step, init, xs) == Fold(step, init, xs[..i])
    decreases |xs| - i
  {
    if i < |xs| {
      assert xs[..i + 1][..i] == xs[..i];
      FoldErrSticks(step, init, xs, i + 1);
    } else {
      assert xs[..i] == xs;
    }
  }
}
