/**
 * The tabular data the pipeline passes between its stages: a pandas DataFrame
 * is modelled as a set of column names and a sequence of rows, each row a map
 * from column name to cell. Errors raised by the Python code become values.
 */
module Table {

  /** One DataFrame cell. `Null` stands for pandas' missing values (NaN, None);
      `Items` is a Python list held in a cell (the themes column). */
  datatype Cell = Str(s: string) | Num(x: real) | Null | Items(xs: seq<Cell>)

  type Row = map<string, Cell>

  datatype Frame = Frame(columns: set<string>, rows: seq<Row>)
  {
    /** Every row carries exactly the frame's columns, as in any DataFrame. */
    predicate Valid() {
      forall i :: 0 <= i < |rows| ==> rows[i].Keys == columns
    }
  }

  /** The Python exceptions the modelled code raises. */
  datatype Error =
    | KeyError(message: string)
    | ValueError(message: string)
    | MissingColumns(missing: set<string>)  // a ValueError naming the missing columns
    | MissingKeys(keys: set<string>)        // a KeyError naming the missing columns
    | FileNotFoundError(message: string)
    | TypeError(message: string)
    | AttributeError(message: string)

  datatype Result<T> = Ok(value: T) | Err(error: Error)

  datatype Option<T> = None | Some(value: T)

  /** The cell of column `c`, or a missing value when the row has no such column. */
  function Get(row: Row, c: string): Cell {
    if c in row then row[c] else Null
  }

  /** `isinstance(cell, str)` and the like. */
  predicate IsNull(c: Cell) { c.Null? }

  /** Apply a row operation that may raise to every element in order, stopping
      at the first failure: a Python `for` loop (or `DataFrame.apply`) whose body
      may raise. */
  function Traverse<A, B>(xs: seq<A>, f: A -> Result<B>): Result<seq<B>>
  {
    if xs == [] then Ok([])
    else
      match Traverse(xs[..|xs| - 1], f)
      case Err(e) => Err(e)
      case Ok(done) =>
        match f(xs[|xs| - 1])
        case Err(e) => Err(e)
        case Ok(y) => Ok(done + [y])
  }

  /** A failure on a prefix is the failure of the whole traversal. */
  lemma {:induction false} TraversePrefixError<A, B>(xs: seq<A>, k: nat, f: A -> Result<B>)
    requires k <= |xs| && Traverse(xs[..k], f).Err?
    ensures Traverse(xs, f) == Traverse(xs[..k], f)
    decreases |xs| - k
  {
    if k < |xs| {
      assert xs[..k + 1][..k] == xs[..k];
      TraversePrefixError(xs, k + 1, f);
    } else {
      assert xs[..k] == xs;
    }
  }

  /** Extending a successful traversal by one element. */
  lemma TraverseStep<A, B>(xs: seq<A>, i: nat, f: A -> Result<B>)
    requires i < |xs| && Traverse(xs[..i], f).Ok?
    ensures f(xs[i]).Err? ==> Traverse(xs, f) == Err(f(xs[i]).error)
    ensures f(xs[i]).Ok? ==> Traverse(xs[..i + 1], f) == Ok(Traverse(xs[..i], f).value + [f(xs[i]).value])
  {
    assert xs[..i + 1][..i] == xs[..i];
    if f(xs[i]).Err? {
      TraversePrefixError(xs, i + 1, f);
    }
  }

  /** A traversal fails exactly when the operation fails on some element, and
      otherwise yields one result per element, in order. */
  lemma {:induction false} TraverseSpec<A, B>(xs: seq<A>, f: A -> Result<B>)
    ensures Traverse(xs, f).Err? <==> exists i :: 0 <= i < |xs| && f(xs[i]).Err?
    ensures Traverse(xs, f).Ok? ==>
              && |Traverse(xs, f).value| == |xs|
              && forall i :: 0 <= i < |xs| ==> f(xs[i]) == Ok(Traverse(xs, f).value[i])
  {
    if xs != [] {
      var n := |xs| - 1;
      var init := xs[..n];
      TraverseSpec(init, f);
      if Traverse(xs, f).Err? {
        if Traverse(init, f).Err? {
          var i :| 0 <= i < |init| && f(init[i]).Err?;
          assert xs[i] == init[i];
        } else {
          assert f(xs[n]).Err?;
        }
      } else {
        forall i | 0 <= i < |xs| ensures f(xs[i]) == Ok(Traverse(xs, f).value[i]) {
          if i < n {
            assert xs[i] == init[i];
          }
        }
      }
    }
  }

  /** An operation that returns every element unchanged leaves the whole
      sequence unchanged. */
  lemma {:induction false} TraverseFixed<A>(xs: seq<A>, f: A -> Result<A>)
    requires forall i :: 0 <= i < |xs| ==> f(xs[i]) == Ok(xs[i])
    ensures Traverse(xs, f) == Ok(xs)
  {
    if xs != [] {
      var init := xs[..|xs| - 1];
      assert forall i :: 0 <= i < |init| ==> init[i] == xs[i];
      TraverseFixed(init, f);
      assert init + [xs[|xs| - 1]] == xs;
    }
  }
}
