/**
 * Command-line coordinate parsing: `parse_pair` and `parse_complex`.
 * The per-half number parser `T::from_str` is a foreign call and is taken as
 * a parameter `fromStr`, a partial function from strings to values.
 */
module Parse {
  import opened Wrappers
  import opened ComplexPlane

  /** `str::find` with a character pattern: the first position of `sep` in `s`. */
  function Find(s: string, sep: char): (r: Option<nat>)
    ensures r.Some? ==> r.value < |s| && s[r.value] == sep && sep !in s[..r.value]
    ensures r.None? ==> sep !in s
  {
    if |s| == 0 then None
    else if s[0] == sep then Some(0)
    else match Find(s[1..], sep)
      case None => None
      case Some(i) =>
        assert s[1..][..i] == s[1..i + 1];
        assert s[..i + 1] == [s[0]] + s[1..i + 1];
        Some(i + 1)
  }

  /**
   * `parse_pair`: split `s` at the FIRST occurrence of `sep` and parse both
   * halves; None when there is no separator or either half fails to parse.
   */
  function ParsePair<T>(s: string, sep: char, fromStr: string -> Option<T>): (r: Option<(T, T)>)
    ensures sep !in s ==> r.None?
    ensures forall i | 0 <= i < |s| && s[i] == sep && sep !in s[..i] ::
      r == if fromStr(s[..i]).Some? && fromStr(s[i + 1..]).Some?
           then Some((fromStr(s[..i]).value, fromStr(s[i + 1..]).value))
           else None
  {
    match Find(s, sep)
    case None => None
    case Some(index) =>
      FirstSeparatorUnique(s, sep, index);
      match (fromStr(s[..index]), fromStr(s[index + 1..]))
      case (Some(l), Some(r)) => Some((l, r))
      case _ => None
  }

  lemma FirstSeparatorUnique(s: string, sep: char, index: nat)
    requires index < |s| && s[index] == sep && sep !in s[..index]
    ensures forall i | 0 <= i < |s| && s[i] == sep && sep !in s[..i] :: i == index
  {
  }

  /** `parse_complex`: a comma-separated pair (re, im) becomes the point re + im·i. */
  function ParseComplex(s: string, fromStr: string -> Option<real>): (r: Option<Complex>)
    ensures r.Some? <==> ParsePair(s, ',', fromStr).Some?
    ensures r.Some? ==>
      r.value.re == ParsePair(s, ',', fromStr).value.0 && r.value.im == ParsePair(s, ',', fromStr).value.1
  {
    match ParsePair(s, ',', fromStr)
    case Some((re, im)) => Some(Complex(re, im))
    case None => None
  }

  /**
   * The test cases of `parse_pair`, for any number parser that accepts
   * "10" and "20" and rejects "" and "20xy".
   */
  lemma ParsePairExamples(fromStr: string -> Option<int>)
    requires fromStr("") == None && fromStr("20xy") == None
    requires fromStr("10") == Some(10) && fromStr("20") == Some(20)
    ensures ParsePair("", ',', fromStr) == None
    ensures ParsePair("10,", ',', fromStr) == None
    ensures ParsePair(",10", ',', fromStr) == None
    ensures ParsePair("10,20", ',', fromStr) == Some((10, 20))
    ensures ParsePair("10,20xy", ',', fromStr) == None
  {
    assert "10,"[2] == ',' && "10,"[..2] == "10" && "10,"[3..] == "";
    assert ",10"[0] == ',' && ",10"[..0] == "";
    assert "10,20"[2] == ',' && "10,20"[..2] == "10" && "10,20"[3..] == "20";
    assert "10,20xy"[2] == ',' && "10,20xy"[..2] == "10" && "10,20xy"[3..] == "20xy";
  }

  /**
   * The `'x'`-separated test cases of `parse_pair`, for any number parser that
   * accepts "0.5" and "1.5" and rejects "".
   */
  lemma ParsePairDimensionExamples(fromStr: string -> Option<real>)
    requires fromStr("") == None
    requires fromStr("0.5") == Some(0.5) && fromStr("1.5") == Some(1.5)
    ensures ParsePair("0.5x", 'x', fromStr) == None
    ensures ParsePair("0.5x1.5", 'x', fromStr) == Some((0.5, 1.5))
  {
    assert "0.5x"[3] == 'x' && "0.5x"[..3] == "0.5" && "0.5x"[4..] == "";
    var s := "0.5x1.5";
    assert s[3] == 'x' && s[..3] == "0.5" && s[4..] == "1.5";
    assert 'x' !in s[..3];
  }

  /**
   * The test cases of `parse_complex`, for any number parser that accepts
   * "1.25" and "-0.0625" and rejects "".
   */
  lemma ParseComplexExamples(fromStr: string -> Option<real>)
    requires fromStr("") == None
    requires fromStr("1.25") == Some(1.25) && fromStr("-0.0625") == Some(-0.0625)
    ensures ParseComplex("1.25,-0.0625", fromStr) == Some(Complex(1.25, -0.0625))
    ensures ParseComplex(",-0.0625", fromStr) == None
  {
    var s := "1.25,-0.0625";
    assert s[4] == ',' && s[..4] == "1.25" && s[5..] == "-0.0625";
    assert ',' !in s[..4];
    var t := ",-0.0625";
    assert t[0] == ',' && t[..0] == "";
  }
}
