// Vocabulary shared by every module: optional values, fallible results and a
// few facts about sequences.
module Common {

  datatype Option<+T> = None | Some(value: T)

  datatype Result<+T, +E> = Ok(value: T) | Err(error: E)

  /** The outcome of code run under `catch_unwind`: it returns, or it panics. */
  datatype Attempt<+T> = Returned(value: T) | Panicked

  function Max(a: nat, b: nat): nat {
    if a < b then b else a
  }

  function Min(a: nat, b: nat): nat {
    if a < b then a else b
  }

  predicate Distinct<T(==)>(s: seq<T>) {
    forall i, j :: 0 <= i < j < |s| ==> s[i] != s[j]
  }

  function Reverse<T>(s: seq<T>): (r: seq<T>)
    ensures |r| == |s|
  {
    if s == [] then [] else Reverse(s[1..]) + [s[0]]
  }

  function Concat<T>(parts: seq<seq<T>>): seq<T> {
    if parts == [] then [] else parts[0] + Concat(parts[1..])
  }

  function Join(sep: string, parts: seq<string>): string {
    if parts == [] then ""
    else if |parts| == 1 then parts[0]
    else parts[0] + sep + Join(sep, parts[1..])
  }

  lemma {:induction false} JoinSnoc(sep: string, parts: seq<string>, last: string)
    requires parts != []
    ensures Join(sep, parts + [last]) == Join(sep, parts) + sep + last
  {
    if |parts| == 1 {
      assert parts + [last] == [parts[0], last];
      assert [parts[0], last][1..] == [last];
    } else {
      assert (parts + [last])[1..] == parts[1..] + [last];
      JoinSnoc(sep, parts[1..], last);
      var rest := Join(sep, parts[1..]);
      assert parts[0] + sep + (rest + sep + last) == (parts[0] + sep + rest) + sep + last;
    }
  }

  /** The finite map of the values `f` gives below `upTo`. */
  function Tabulate<V>(f: nat -> Option<V>, upTo: nat): map<nat, V> {
    map n: nat | 0 <= n < upTo && f(n).Some? :: f(n).value
  }

  lemma TabulateGrows<V>(base: map<nat, V>, f: nat -> Option<V>, upTo: nat)
    ensures base + Tabulate(f, upTo + 1)
            == if f(upTo).Some? then (base + Tabulate(f, upTo))[upTo := f(upTo).value]
               else base + Tabulate(f, upTo)
  {
  }

  // Pigeonhole: distinct members of a finite set are no more than the set.
  lemma {:induction false} DistinctFits<T>(s: seq<T>, pool: set<T>)
    requires Distinct(s)
    requires forall i :: 0 <= i < |s| ==> s[i] in pool
    ensures |s| <= |pool|
  {
    if s != [] {
      var last := s[|s| - 1];
      DistinctFits(s[..|s| - 1], pool - {last});
    }
  }

  lemma {:induction false} ConcatAppend<T>(a: seq<seq<T>>, b: seq<seq<T>>)
    ensures Concat(a + b) == Concat(a) + Concat(b)
  {
    if a == [] {
      assert a + b == b;
    } else {
      assert (a + b)[1..] == a[1..] + b;
      ConcatAppend(a[1..], b);
    }
  }
}
