/** Small shared vocabulary: an optional value (Java's nullable references)
    and "this sequence lists that set, each element once" (the order in which
    a Java HashMap happens to iterate its keys). */
module Common {

  datatype Option<+T> = None | Some(value: T)

  /** `s` lists every element of `keys` exactly once, in some order. */
  ghost predicate Enumerates(s: seq<string>, keys: set<string>)
  {
    && (forall i, j :: 0 <= i < j < |s| ==> s[i] != s[j])
    && (forall x :: x in s <==> x in keys)
  }

  /** An enumeration of a set is exactly as long as the set is large. */
  lemma {:induction false} EnumeratesLength(s: seq<string>, keys: set<string>)
    requires Enumerates(s, keys)
    ensures |s| == |keys|
    decreases |s|
  {
    if s == [] {
      assert forall x :: x !in keys by {
        forall x ensures x !in keys { assert x !in s; }
      }
      assert keys == {};
    } else {
      var x := s[|s| - 1];
      var rest := s[..|s| - 1];
      assert x in keys;
      assert forall y :: y in rest ==> y != x by {
        forall y | y in rest ensures y != x {
          var i :| 0 <= i < |rest| && rest[i] == y;
          assert s[i] == y && i < |s| - 1;
        }
      }
      assert forall y :: y in rest <==> y in keys - {x} by {
        forall y ensures y in rest <==> y in keys - {x} {
          if y in s && y != x {
            var i :| 0 <= i < |s| && s[i] == y;
            assert i < |s| - 1 && rest[i] == y;
          }
        }
      }
      EnumeratesLength(rest, keys - {x});
    }
  }
}
