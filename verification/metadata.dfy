/**
 * The metadata a compiled file exports (variables, functions and keyframe
 * tables), the compiler's error values, and the selector-to-declarations map.
 */
module Metadata {
  import opened Wrappers

  /** One exported definition, in the order the file defines or imports it. */
  datatype MetaData =
    | Variables(name: string, value: string)
    | Function(name: string, body: seq<string>)
    | Keyframes(name: string, frames: map<string, seq<string>>)

  /** The error values the processors construct; `line` is 1-based. */
  datatype RcssError =
    | ParseError(filePath: string, line: nat, column: nat, message: string, context: string)
    | ImportError(filePath: string, line: nat, column: nat, message: string)
    | VariableError(filePath: string, line: nat, column: nat, variableName: string, message: string)
    | FunctionError(filePath: string, functionName: string, message: string, line: nat, column: nat)

  type Outcome<T> = Result<T, RcssError>

  /** Selector (or frame, or condition) to its declarations, in insertion order. */
  type DeclMap = map<string, seq<string>>

  /** The list stored under `key`, the empty list when the key is absent. */
  function ListAt(m: DeclMap, key: string): seq<string> {
    if key in m then m[key] else []
  }

  /**
   * `m[key].extend(ds)`, inserting `ds` when the key is absent: the lines are
   * added at the end of that key's list and every other key is left alone.
   */
  function Extend(m: DeclMap, key: string, ds: seq<string>): (r: DeclMap)
    ensures key in r && |r[key]| == |ListAt(m, key)| + |ds|
    ensures r[key][..|ListAt(m, key)|] == ListAt(m, key)
    ensures r[key][|ListAt(m, key)|..] == ds
    ensures forall k :: k != key ==> (k in r <==> k in m)
    ensures forall k :: k in m && k != key ==> r[k] == m[k]
  {
    var old_ := ListAt(m, key);
    assert (old_ + ds)[..|old_|] == old_;
    m[key := old_ + ds]
  }

  /** Every list of `m1` is still present in `m2`, possibly with more lines at its end. */
  ghost predicate Grows(m1: DeclMap, m2: DeclMap) {
    forall k :: k in m1 ==> k in m2 && m1[k] <= m2[k]
  }

  lemma ExtendGrows(m: DeclMap, key: string, ds: seq<string>)
    ensures Grows(m, Extend(m, key, ds))
  {
    var r := Extend(m, key, ds);
    forall k | k in m ensures k in r && m[k] <= r[k] {
      if k == key {
        assert m[k] == r[k][..|m[k]|];
      }
    }
  }

  lemma GrowsTransitive(m1: DeclMap, m2: DeclMap, m3: DeclMap)
    requires Grows(m1, m2) && Grows(m2, m3)
    ensures Grows(m1, m3)
  {
  }
}
