/** What the two PHP conversions share: the keys of a PHP array, and when it is a list. */
module PhpArrays {

  /** `BinaryKey` is a string key that is not valid UTF-8. */
  datatype Key = IntKey(i: int) | StrKey(s: string) | BinaryKey

  /** The keys are 0, 1, 2 and so on, in order. */
  predicate IsList<V>(table: seq<(Key, V)>) {
    forall i :: 0 <= i < |table| ==> table[i].0 == IntKey(i)
  }
}
