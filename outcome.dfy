/** Results and errors of the pipeline stages in nodes.py.

    Every exception a stage can raise on the paths this model covers is one
    constructor of `Error`; a stage returns `Err` where the Python code raises. */
module Outcome {

  datatype Option<T> = None | Some(value: T)

  datatype Error =
    | NoYamlBlock            // `split("```yaml")[1]` finds no fence: IndexError
    | UnloadableYaml         // the YAML loader rejects the fenced text
    | NotAList               // the loaded document is not a list
    | MissingKeys            // an item is not a mapping or lacks a required key
    | NotAString(field: string)
    | FieldNotAList(field: string)
    | UnparsableIndex        // an index entry does not parse, is out of range or repeats
    | LengthMismatch         // the chapter order does not name every abstraction
    | AlwaysApplyNotBool
    | NoStrip(field: string) // `.strip()` called on a value that is not a string
    | NoFiles                // the crawler returned no files
    | MissingChapterRef      // KeyError on the chapter-filename table
    | IndexOutOfRange        // IndexError on the abstraction list
    | AttributeMissing       // the chapter accumulator was read before it was set

  datatype Result<T> = Ok(value: T) | Err(error: Error)

  /** Applies `f` to every element in order and stops at the first error, as the
      validation loops of nodes.py do when they raise inside a `for`. */
  function MapAll<T, U>(xs: seq<T>, f: T -> Result<U>): (r: Result<seq<U>>)
    ensures r.Ok? <==> forall k :: 0 <= k < |xs| ==> f(xs[k]).Ok?
    ensures r.Ok? ==> |r.value| == |xs| && forall k :: 0 <= k < |xs| ==> r.value[k] == f(xs[k]).value
    ensures r.Err? ==> exists k :: 0 <= k < |xs| && f(xs[k]) == Err(r.error) &&
                                   forall j :: 0 <= j < k ==> f(xs[j]).Ok?
    decreases |xs|
  {
    if |xs| == 0 then Ok([])
    else
      var init := xs[..|xs| - 1];
      assert forall k :: 0 <= k < |init| ==> init[k] == xs[k];
      match MapAll(init, f)
      case Err(e) => Err(e)
      case Ok(prefix) =>
        match f(xs[|xs| - 1])
        case Err(e) => Err(e)
        case Ok(y) => Ok(prefix + [y])
  }

  /** One more element processed by `MapAll`: the step a validation loop takes. */
  lemma MapAllStep<T, U>(xs: seq<T>, i: nat, f: T -> Result<U>)
    requires i < |xs|
    ensures MapAll(xs[..i + 1], f) ==
              match MapAll(xs[..i], f)
              case Err(e) => Err(e)
              case Ok(prefix) =>
                match f(xs[i])
                case Err(e) => Err(e)
                case Ok(y) => Ok(prefix + [y])
  {
    assert xs[..i + 1][..i] == xs[..i];
  }

  /** The first failing element decides the error of the whole `MapAll`. */
  lemma MapAllFirstError<T, U>(xs: seq<T>, i: nat, f: T -> Result<U>)
    requires i < |xs| && MapAll(xs[..i], f).Ok? && f(xs[i]).Err?
    ensures MapAll(xs, f) == Err(f(xs[i]).error)
  {
    var r := MapAll(xs, f);
    assert r.Err?;
    forall j | 0 <= j < i ensures f(xs[j]).Ok? {
      assert xs[..i][j] == xs[j];
    }
    var k :| 0 <= k < |xs| && f(xs[k]) == Err(r.error) && forall j :: 0 <= j < k ==> f(xs[j]).Ok?;
    assert k == i;
  }

  /** `MapAll` over a single element. */
  lemma MapAllSingle<T, U>(x: T, f: T -> Result<U>)
    ensures MapAll([x], f) == match f(x) case Err(e) => Err(e) case Ok(y) => Ok([y])
  {
    assert [x][..0] == [];
    assert MapAll([x][..0], f) == Ok([]);
    match f(x)
    case Err(e) =>
    case Ok(y) =>
      assert [] + [y] == [y];
  }

  /** `MapAll` in terms of a per-element acceptance test `ok` that agrees with
      `f` on every element. */
  lemma MapAllBy<T, U>(xs: seq<T>, f: T -> Result<U>, ok: T -> bool)
    requires forall k :: 0 <= k < |xs| ==> (f(xs[k]).Ok? <==> ok(xs[k]))
    ensures MapAll(xs, f).Ok? <==> forall k :: 0 <= k < |xs| ==> ok(xs[k])
    ensures MapAll(xs, f).Err? ==>
              exists k :: 0 <= k < |xs| && !ok(xs[k]) && f(xs[k]) == Err(MapAll(xs, f).error) &&
                          forall j :: 0 <= j < k ==> ok(xs[j])
  {
    var r := MapAll(xs, f);
    if r.Err? {
      var k :| 0 <= k < |xs| && f(xs[k]) == Err(r.error) && forall j :: 0 <= j < k ==> f(xs[j]).Ok?;
      assert !ok(xs[k]);
    }
  }

  /** The validation loop itself: runs `f` over `xs`, appending each value,
      and returns at the first error. */
  method Traverse<T, U>(xs: seq<T>, f: T -> Result<U>) returns (r: Result<seq<U>>)
    ensures r == MapAll(xs, f)
  {
    var acc: seq<U> := [];
    for i := 0 to |xs|
      invariant MapAll(xs[..i], f) == Ok(acc)
    {
      MapAllStep(xs, i, f);
      match f(xs[i])
      case Err(e) =>
        MapAllFirstError(xs, i, f);
        return Err(e);
      case Ok(y) =>
        acc := acc + [y];
    }
    assert xs[..|xs|] == xs;
    return Ok(acc);
  }
}
