/** Value types shared by every part of the model. */
module Common {

  datatype Option<+T> = None | Some(value: T)

  datatype Result<+T, +E> = Success(value: T) | Failure(error: E)

  /** One entry of a `<role>_list` key: the dictionary `{"given_name": ..., "surname": ...}`. */
  datatype Person = Person(givenName: string, surname: string)

  /**
   * A value of the per-item dictionary that is dumped to `info.yaml`:
   * a scalar string, a list of creator entries, or a list of names
   * (tags, collections, file names).
   */
  datatype Value = Text(text: string) | People(people: seq<Person>) | Names(names: seq<string>)

  /** The item types the item query leaves out. */
  const ExcludedTypes: seq<string> := ["note", "attachment"]

  /** Number of occurrences of `c` in `s`. */
  function CountChar(s: string, c: char): (n: nat)
    ensures n <= |s|
    ensures n == 0 <==> c !in s
  {
    if s == [] then 0 else CountChar(s[..|s| - 1], c) + (if s[|s| - 1] == c then 1 else 0)
  }

  lemma {:induction false} CountCharAppend(s: string, t: string, c: char)
    ensures CountChar(s + t, c) == CountChar(s, c) + CountChar(t, c)
    decreases |t|
  {
    if t == [] {
      assert s + t == s;
    } else {
      assert (s + t)[..|s + t| - 1] == s + t[..|t| - 1];
      CountCharAppend(s, t[..|t| - 1], c);
    }
  }
}
