/** Dotted names as byte strings: splitting, joining and the normalisation the DNS decoder applies. */
module Names {
  import opened Ints

  const DOT: byte := 46

  /** ASCII graphic bytes lower-cased, every other byte replaced by `?`. */
  function PrintableLower(b: byte): (c: byte)
    ensures 33 <= c <= 126
  {
    if 33 <= b <= 126 then (if 65 <= b <= 90 then b + 32 else b) else 63
  }

  function Normalise(text: bytes): (r: bytes)
    ensures |r| == |text|
    ensures forall i :: 0 <= i < |text| ==> r[i] == PrintableLower(text[i])
  {
    seq(|text|, i requires 0 <= i < |text| => PrintableLower(text[i]))
  }

  /** Letters come out small, other graphic characters as they are, and anything else as a question mark. */
  lemma NormaliseMeans(text: bytes, i: nat)
    requires i < |text|
    ensures var c, r := text[i] as char, Normalise(text)[i] as char;
            && ('A' <= c <= 'Z' ==> 'a' <= r <= 'z' && r - 'a' == c - 'A')
            && ('!' <= c <= '~' && !('A' <= c <= 'Z') ==> r == c)
            && (!('!' <= c <= '~') ==> r == '?')
  {
  }

  function FirstDot(text: bytes): (i: nat)
    requires DOT in text
    ensures i < |text| && text[i] == DOT && DOT !in text[..i]
  {
    if text[0] == DOT then 0 else 1 + FirstDot(text[1..])
  }

  /** The parts between dots, empty ones included. */
  function SplitDots(text: bytes): (parts: seq<bytes>)
    ensures forall p :: p in parts ==> DOT !in p
    decreases |text|
  {
    if DOT !in text then [text]
    else
      var dot := FirstDot(text);
      [text[..dot]] + SplitDots(text[dot + 1..])
  }

  function NonEmpty(parts: seq<bytes>): (r: seq<bytes>)
    ensures forall p :: p in r ==> p in parts && p != []
  {
    if parts == [] then []
    else (if parts[0] == [] then [] else [parts[0]]) + NonEmpty(parts[1..])
  }

  function JoinDots(parts: seq<bytes>): bytes {
    if parts == [] then []
    else if |parts| == 1 then parts[0]
    else JoinDots(parts[..|parts| - 1]) + [DOT] + parts[|parts| - 1]
  }

  lemma {:induction false} AllNonEmpty(parts: seq<bytes>)
    requires forall i :: 0 <= i < |parts| ==> parts[i] != []
    ensures NonEmpty(parts) == parts
  {
    if parts == [] {
    } else {
      AllNonEmpty(parts[1..]);
    }
  }

  lemma {:induction false} JoinSnoc(parts: seq<bytes>, last: bytes)
    requires parts != []
    ensures JoinDots(parts + [last]) == JoinDots(parts) + [DOT] + last
  {
    assert (parts + [last])[..|parts|] == parts;
  }

  lemma {:induction false} JoinCons(first: bytes, rest: seq<bytes>)
    requires rest != []
    ensures JoinDots([first] + rest) == first + [DOT] + JoinDots(rest)
    decreases |rest|
  {
    var n := |rest| - 1;
    JoinSnoc([first] + rest[..n], rest[n]);
    assert [first] + rest == [first] + rest[..n] + [rest[n]];
    if n == 0 {
    } else {
      JoinCons(first, rest[..n]);
    }
  }

  lemma {:induction false} SplitUnfolds(text: bytes)
    ensures SplitDots(text)
            == if DOT !in text then [text] else [text[..FirstDot(text)]] + SplitDots(text[FirstDot(text) + 1..])
    ensures SplitDots(text) != []
  {
    hide FirstDot;
  }

  /** Joining undoes splitting. */
  lemma {:induction false} JoinSplit(text: bytes)
    ensures SplitDots(text) != [] && JoinDots(SplitDots(text)) == text
    decreases |text|
  {
    hide SplitDots, FirstDot;
    SplitUnfolds(text);
    if DOT !in text {
    } else {
      var dot := FirstDot(text);
      JoinSplit(text[dot + 1..]);
      JoinCons(text[..dot], SplitDots(text[dot + 1..]));
      assert text == text[..dot] + [DOT] + text[dot + 1..];
    }
  }
}
