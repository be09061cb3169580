/** What every part of the model uses. */
module Basics {

  datatype Option<T> = None | Some(value: T)

  function Min(a: int, b: int): int {
    if a < b then a else b
  }

  function Max(a: int, b: int): int {
    if a < b then b else a
  }

  /** The later of two times. */
  function Later(a: real, b: real): real {
    if a < b then b else a
  }

  predicate IsWhole(x: real) {
    x.Floor as real == x
  }

  lemma SubsetSize<T>(few: set<T>, many: set<T>)
    requires few <= many
    ensures |few| <= |many| && (few != many ==> |few| < |many|)
  {
    assert many == few + (many - few);
    assert |many| == |few| + |many - few|;
  }

  lemma HexLetter(c: char)
    ensures c in "0123456789abcdef" <==> '0' <= c <= '9' || 'a' <= c <= 'f'
  {
    var hex := "0123456789abcdef";
    if '0' <= c <= '9' {
      assert hex[c as int - '0' as int] == c;
    } else if 'a' <= c <= 'f' {
      assert hex[c as int - 'a' as int + 10] == c;
    }
  }
}
