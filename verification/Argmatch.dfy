/** argmatch and argmatch_to_argument of diffutils-3.3/gnulib-tests/argmatch.c. */
module Argmatch {

  /** A list of argument names with the value of each; without values, ambiguity cannot be resolved. */
  datatype Table<V> = Table(names: seq<string>, values: seq<V>, valued: bool)

  predicate Proper<V>(t: Table<V>) {
    t.valued ==> |t.values| == |t.names|
  }

  /** Entries i and j are known to mean the same. */
  ghost predicate Synonyms<V>(t: Table<V>, i: nat, j: nat)
    requires Proper(t) && i < |t.names| && j < |t.names|
  {
    t.valued && t.values[i] == t.values[j]
  }

  ghost predicate FirstExact<V>(t: Table<V>, arg: string, i: int) {
    0 <= i < |t.names| && t.names[i] == arg && forall k :: 0 <= k < i ==> t.names[k] != arg
  }

  ghost predicate FirstPrefix<V>(t: Table<V>, arg: string, i: int) {
    0 <= i < |t.names| && arg <= t.names[i] && forall k :: 0 <= k < i ==> !(arg <= t.names[k])
  }

  ghost predicate AllSynonyms<V>(t: Table<V>, arg: string, i: nat)
    requires Proper(t) && i < |t.names|
  {
    forall k :: 0 <= k < |t.names| && arg <= t.names[k] && k != i ==> Synonyms(t, i, k)
  }

  /** What the comment above argmatch promises. */
  ghost predicate Correct<V>(t: Table<V>, arg: string, r: int)
    requires Proper(t)
  {
    if arg in t.names then FirstExact(t, arg, r)
    else if !exists k :: 0 <= k < |t.names| && arg <= t.names[k] then r == -1
    else
      || (FirstPrefix(t, arg, r) && AllSynonyms(t, arg, r))
      || (r == -2 && forall i :: FirstPrefix(t, arg, i) ==> !AllSynonyms(t, arg, i))
  }

  /** argmatch. */
  method Match<V(==)>(arg: string, t: Table<V>) returns (r: int)
    requires Proper(t)
    ensures Correct(t, arg, r)
  {
    var matchind, ambiguous := -1, false;
    for i := 0 to |t.names|
      invariant forall k :: 0 <= k < i ==> t.names[k] != arg
      invariant -1 <= matchind < i
      invariant matchind == -1 ==> !ambiguous && forall k :: 0 <= k < i ==> !(arg <= t.names[k])
      invariant matchind >= 0 ==> FirstPrefix(t, arg, matchind)
      invariant matchind >= 0 ==>
                  (ambiguous <==>
                    exists k :: 0 <= k < i && arg <= t.names[k] && k != matchind && !Synonyms(t, matchind, k))
    {
      if arg <= t.names[i] {
        if |t.names[i]| == |arg| {
          assert t.names[i] == arg && arg in t.names && FirstExact(t, arg, i);
          return i;
        } else if matchind == -1 {
          matchind := i;
        } else if !t.valued || t.values[matchind] != t.values[i] {
          ambiguous := true;
        }
      }
    }
    assert arg !in t.names;
    if ambiguous {
      forall i | FirstPrefix(t, arg, i)
        ensures i == matchind
      {
      }
      return -2;
    }
    return matchind;
  }

  /** argmatch_to_argument: the first name with a value. */
  method ToArgument<V(==)>(value: V, t: Table<V>) returns (found: bool, name: string)
    requires Proper(t) && t.valued
    ensures found <==> value in t.values
    ensures found ==>
              exists i :: && 0 <= i < |t.names| && t.values[i] == value && t.names[i] == name
                          && forall k :: 0 <= k < i ==> t.values[k] != value
  {
    for i := 0 to |t.names|
      invariant forall k :: 0 <= k < i ==> t.values[k] != value
    {
      if t.values[i] == value {
        return true, t.names[i];
      }
    }
    return false, "";
  }

  /** Matching the name of a value selects an entry with that value, if no name occurs twice. */
  method RoundTrip<V(==)>(value: V, t: Table<V>) returns (r: int)
    requires Proper(t) && t.valued && value in t.values
    requires forall i, j :: 0 <= i < j < |t.names| ==> t.names[i] != t.names[j]
    ensures 0 <= r < |t.values| && t.values[r] == value
  {
    var found, name := ToArgument(value, t);
    r := Match(name, t);
  }
}
