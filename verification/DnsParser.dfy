/**
 * DNS messages (`packet/dns.rs`). Names are compressed: a sequence of labels and pointers (section 4.1.4 of
 * RFC 1035). `read_name` is proved to accept exactly the byte strings that derive such a sequence within its limits.
 */
module DnsParser {
  import opened Ints
  import opened Wrappers
  import opened PacketTypes
  import opened Names
  import opened Layers

  const DNS_PORT: u16 := 53
  const DNS_HEADER_LEN: nat := 12
  const MAX_NAME_LEN: nat := 253
  const MAX_POINTER_JUMPS: nat := 16

  type NameResult = Result<(bytes, nat), ParseError>

  function DnsTruncated<T>(needed: nat, msg: bytes): Result<T, ParseError> {
    Err(Truncated(DnsLayer, needed, |msg|))
  }

  function AppendLabel(name: bytes, text: bytes): (longer: bytes)
    ensures text != [] ==> |longer| > |name|
  {
    (if name == [] then [] else name + [DOT]) + Normalise(text)
  }

  function OrElse(resume: Option<nat>, pos: nat): nat {
    if resume.Some? then resume.value else pos
  }

  /** The decoder's loop from one of its states. */
  function ReadFrom(msg: bytes, pos: nat, name: bytes, resume: Option<nat>, jumps: nat): NameResult
    requires |name| <= MAX_NAME_LEN && jumps <= MAX_POINTER_JUMPS
    decreases MAX_NAME_LEN - |name| + MAX_POINTER_JUMPS - jumps
  {
    if |msg| <= pos then DnsTruncated(pos + 1, msg)
    else
      var lenByte := msg[pos];
      if lenByte == 0 then Ok((name, OrElse(resume, pos + 1)))
      else if lenByte < 0x40 then
        if |msg| < pos + 1 + lenByte then DnsTruncated(pos + 1 + lenByte, msg)
        else
          var longer := AppendLabel(name, msg[pos + 1..pos + 1 + lenByte]);
          if |longer| > MAX_NAME_LEN then Err(Malformed(DnsLayer, NameTooLong))
          else ReadFrom(msg, pos + 1 + lenByte, longer, resume, jumps)
      else if lenByte < 0xC0 then Err(Malformed(DnsLayer, ReservedLabel))
      else if |msg| <= pos + 1 then DnsTruncated(pos + 2, msg)
      else if jumps == MAX_POINTER_JUMPS then Err(Malformed(DnsLayer, PointerLoop))
      else ReadFrom(msg, Target(msg, pos), name, Some(OrElse(resume, pos + 2)), jumps + 1)
  }

  /** Where the pointer at `pos` points: the low 14 bits of its two bytes. */
  function Target(msg: bytes, pos: nat): nat
    requires pos + 2 <= |msg| && msg[pos] >= 0xC0
  {
    Be16(msg, pos) - 0xC000
  }

  lemma PointerTarget(msg: bytes, pos: nat)
    requires pos + 2 <= |msg| && msg[pos] >= 0xC0
    ensures Target(msg, pos) == (msg[pos] as int - 0xC0) * 0x100 + msg[pos + 1] as int
  {
  }

  method ReadName(msg: bytes, start: nat) returns (r: NameResult)
    ensures r == ReadFrom(msg, start, [], None, 0)
  {
    hide AppendLabel, Target;
    ghost var goal := ReadFrom(msg, start, [], None, 0);
    var name: bytes, pos: nat, resume: Option<nat>, jumps: nat := [], start, None, 0;
    while true
      invariant |name| <= MAX_NAME_LEN && jumps <= MAX_POINTER_JUMPS
      invariant ReadFrom(msg, pos, name, resume, jumps) == goal
      decreases MAX_NAME_LEN - |name| + MAX_POINTER_JUMPS - jumps
    {
      if |msg| <= pos {
        return DnsTruncated(pos + 1, msg);
      }
      var lenByte := msg[pos];
      if lenByte == 0 {
        pos := pos + 1;
        break;
      } else if lenByte < 0x40 {
        if |msg| < pos + 1 + lenByte {
          return DnsTruncated(pos + 1 + lenByte, msg);
        }
        var longer := AppendLabel(name, msg[pos + 1..pos + 1 + lenByte]);
        if |longer| > MAX_NAME_LEN {
          return Err(Malformed(DnsLayer, NameTooLong));
        }
        name := longer;
        pos := pos + 1 + lenByte;
      } else if lenByte < 0xC0 {
        return Err(Malformed(DnsLayer, ReservedLabel));
      } else {
        if |msg| <= pos + 1 {
          return DnsTruncated(pos + 2, msg);
        }
        resume := Some(OrElse(resume, pos + 2));
        if jumps + 1 > MAX_POINTER_JUMPS {
          return Err(Malformed(DnsLayer, PointerLoop));
        }
        jumps := jumps + 1;
        pos := Target(msg, pos);
      }
    }
    r := Ok((name, OrElse(resume, pos)));
  }

  function DecodeDns(msg: bytes): Result<DnsInfo, ParseError> {
    if |msg| < DNS_HEADER_LEN then Err(Truncated(DnsLayer, DNS_HEADER_LEN, |msg|))
    else
      var count := Be16(msg, 4);
      if count == 0 then Ok(Info(msg, None))
      else
        var (name, end) :- ReadFrom(msg, DNS_HEADER_LEN, [], None, 0);
        :- Need(msg, end + 2, DnsLayer);
        Ok(Info(msg, Some(DnsQuestion(name, Be16(msg, end)))))
  }

  method ParseDns(msg: bytes) returns (r: Result<DnsInfo, ParseError>)
    ensures r == DecodeDns(msg)
  {
    hide ReadFrom, Info;
    if |msg| < DNS_HEADER_LEN {
      return DnsTruncated(DNS_HEADER_LEN, msg);
    }
    var question := None;
    if Be16(msg, 4) != 0 {
      var name := ReadName(msg, DNS_HEADER_LEN);
      if name.Err? {
        return Err(name.error);
      }
      var end := name.value.1;
      if |msg| < end + 2 {
        return DnsTruncated(end + 2, msg);
      }
      question := Some(DnsQuestion(name.value.0, Be16(msg, end)));
    }
    r := Ok(Info(msg, question));
  }

  function Info(msg: bytes, question: Option<DnsQuestion>): DnsInfo
    requires |msg| >= DNS_HEADER_LEN
  {
    DnsInfo(Be16(msg, 0), msg[2] >= 0x80, msg[2] / 8 % 16, msg[3] % 16, Be16(msg, 4), Be16(msg, 6), question)
  }

  // ---------------------------------------------------------------- what a name is

  /** One element of a compressed name. */
  datatype Step = Literal(text: bytes) | Jump(target: nat)

  /** The bytes at `pos` spell out these steps and then the root. */
  ghost predicate Derives(msg: bytes, pos: nat, steps: seq<Step>)
    decreases |steps|
  {
    if steps == [] then pos < |msg| && msg[pos] == 0
    else match steps[0]
      case Literal(text) =>
        && 1 <= |text| <= 63
        && pos + 1 + |text| <= |msg|
        && msg[pos] == |text|
        && msg[pos + 1..pos + 1 + |text|] == text
        && Derives(msg, pos + 1 + |text|, steps[1..])
      case Jump(target) =>
        && pos + 2 <= |msg|
        && msg[pos] >= 0xC0
        && target == (msg[pos] as int - 0xC0) * 0x100 + msg[pos + 1] as int
        && Derives(msg, target, steps[1..])
  }

  ghost function Jumps(steps: seq<Step>): nat {
    if steps == [] then 0 else (if steps[0].Jump? then 1 else 0) + Jumps(steps[1..])
  }

  /** The labels of a name, normalised. */
  ghost function LabelsOf(steps: seq<Step>): seq<bytes> {
    if steps == [] then []
    else (if steps[0].Literal? then [Normalise(steps[0].text)] else []) + LabelsOf(steps[1..])
  }

  /** Just past the first pointer or, without pointers, past the root byte. */
  ghost function EndOf(pos: nat, steps: seq<Step>): nat
    decreases |steps|
  {
    if steps == [] then pos + 1
    else if steps[0].Jump? then pos + 2
    else EndOf(pos + 1 + |steps[0].text|, steps[1..])
  }

  /** A derivation that the decoder's limits admit. */
  ghost predicate Admissible(msg: bytes, start: nat, steps: seq<Step>) {
    Derives(msg, start, steps) && Jumps(steps) <= 16 && |JoinDots(LabelsOf(steps))| <= 253
  }

  /** The name after the labels of `steps` have been appended one by one. */
  ghost function Extend(name: bytes, labels: seq<bytes>): bytes
    decreases |labels|
  {
    if labels == [] then name
    else Extend((if name == [] then [] else name + [DOT]) + labels[0], labels[1..])
  }

  lemma {:induction false} ExtendIsLonger(name: bytes, labels: seq<bytes>)
    ensures |name| <= |Extend(name, labels)|
    decreases |labels|
  {
    if labels == [] {
    } else {
      ExtendIsLonger((if name == [] then [] else name + [DOT]) + labels[0], labels[1..]);
    }
  }

  lemma {:induction false} ExtendSnoc(name: bytes, labels: seq<bytes>, last: bytes)
    ensures Extend(name, labels + [last])
            == (if Extend(name, labels) == [] then [] else Extend(name, labels) + [DOT]) + last
    decreases |labels|
  {
    if labels == [] {
      assert labels + [last] == [last];
    } else {
      assert (labels + [last])[1..] == labels[1..] + [last];
      ExtendSnoc((if name == [] then [] else name + [DOT]) + labels[0], labels[1..], last);
    }
  }

  lemma {:induction false} ExtendIsJoin(labels: seq<bytes>)
    requires forall i :: 0 <= i < |labels| ==> labels[i] != []
    ensures Extend([], labels) == JoinDots(labels)
    ensures labels != [] ==> JoinDots(labels) != []
    decreases |labels|
  {
    if labels == [] {
    } else {
      var n := |labels| - 1;
      assert labels == labels[..n] + [labels[n]];
      ExtendIsJoin(labels[..n]);
      ExtendSnoc([], labels[..n], labels[n]);
    }
  }

  lemma {:induction false} DerivedLabels(msg: bytes, pos: nat, steps: seq<Step>)
    requires Derives(msg, pos, steps)
    ensures forall i :: 0 <= i < |LabelsOf(steps)| ==> LabelsOf(steps)[i] != []
    decreases |steps|
  {
    if steps == [] {
    } else {
      DerivedLabels(msg, if steps[0].Jump? then steps[0].target else pos + 1 + |steps[0].text|, steps[1..]);
    }
  }

  lemma {:induction false} ReadsRoot(msg: bytes, pos: nat, name: bytes, resume: Option<nat>, jumps: nat)
    requires |name| <= MAX_NAME_LEN && jumps <= MAX_POINTER_JUMPS && pos < |msg| && msg[pos] == 0
    ensures ReadFrom(msg, pos, name, resume, jumps) == Ok((name, OrElse(resume, pos + 1)))
  {
  }

  lemma ReadsLiteral(msg: bytes, pos: nat, text: bytes, name: bytes, resume: Option<nat>, jumps: nat)
    requires |name| <= MAX_NAME_LEN && jumps <= MAX_POINTER_JUMPS && |AppendLabel(name, text)| <= MAX_NAME_LEN
    requires 1 <= |text| <= 63 && pos + 1 + |text| <= |msg|
    requires msg[pos] == |text| && msg[pos + 1..pos + 1 + |text|] == text
    ensures ReadFrom(msg, pos, name, resume, jumps)
            == ReadFrom(msg, pos + 1 + |text|, AppendLabel(name, text), resume, jumps)
  {
  }

  lemma ReadsJump(msg: bytes, pos: nat, name: bytes, resume: Option<nat>, jumps: nat)
    requires |name| <= MAX_NAME_LEN && jumps < MAX_POINTER_JUMPS
    requires pos + 2 <= |msg| && msg[pos] >= 0xC0
    ensures ReadFrom(msg, pos, name, resume, jumps)
            == ReadFrom(msg, Target(msg, pos), name, Some(OrElse(resume, pos + 2)), jumps + 1)
  {
  }

  lemma {:induction false} AcceptsDerivation(msg: bytes, pos: nat, steps: seq<Step>, name: bytes,
                                             resume: Option<nat>, jumps: nat)
    requires Derives(msg, pos, steps) && jumps + Jumps(steps) <= MAX_POINTER_JUMPS
    requires |Extend(name, LabelsOf(steps))| <= MAX_NAME_LEN && |name| <= MAX_NAME_LEN
    ensures ReadFrom(msg, pos, name, resume, jumps) == Ok((Extend(name, LabelsOf(steps)), OrElse(resume, EndOf(pos, steps))))
    decreases |steps|
  {
    hide ReadFrom, Target;
    if steps == [] {
      ReadsRoot(msg, pos, name, resume, jumps);
    } else {
      match steps[0]
      case Literal(text) =>
        var longer := AppendLabel(name, text);
        assert LabelsOf(steps)[1..] == LabelsOf(steps[1..]);
        ExtendIsLonger(longer, LabelsOf(steps[1..]));
        ReadsLiteral(msg, pos, text, name, resume, jumps);
        AcceptsDerivation(msg, pos + 1 + |text|, steps[1..], longer, resume, jumps);
      case Jump(target) =>
        assert LabelsOf(steps) == LabelsOf(steps[1..]);
        PointerTarget(msg, pos);
        ReadsJump(msg, pos, name, resume, jumps);
        AcceptsDerivation(msg, target, steps[1..], name, Some(OrElse(resume, pos + 2)), jumps + 1);
    }
  }

  lemma {:induction false} AcceptedHasDerivation(msg: bytes, pos: nat, name: bytes, resume: Option<nat>, jumps: nat)
    returns (steps: seq<Step>)
    requires |name| <= MAX_NAME_LEN && jumps <= MAX_POINTER_JUMPS
    requires ReadFrom(msg, pos, name, resume, jumps).Ok?
    ensures Derives(msg, pos, steps) && jumps + Jumps(steps) <= MAX_POINTER_JUMPS
    ensures |Extend(name, LabelsOf(steps))| <= MAX_NAME_LEN
    decreases MAX_NAME_LEN - |name| + MAX_POINTER_JUMPS - jumps
  {
    hide AppendLabel, LabelsOf, Target;
    var lenByte := msg[pos];
    if lenByte == 0 {
      steps := [];
      assert Extend(name, LabelsOf(steps)) == name by {
        NoLabels(name);
      }
    } else if lenByte < 0x40 {
      var text := msg[pos + 1..pos + 1 + lenByte];
      var rest := AcceptedHasDerivation(msg, pos + 1 + lenByte, AppendLabel(name, text), resume, jumps);
      steps := [Literal(text)] + rest;
      ConsLiteral(name, text, rest);
    } else {
      PointerTarget(msg, pos);
      var rest := AcceptedHasDerivation(msg, Target(msg, pos), name, Some(OrElse(resume, pos + 2)), jumps + 1);
      steps := [Jump(Target(msg, pos))] + rest;
      ConsJump(Target(msg, pos), rest);
    }
  }

  lemma {:induction false} NoLabels(name: bytes)
    ensures Extend(name, LabelsOf([])) == name
  {
  }

  lemma {:induction false} ConsJump(target: nat, rest: seq<Step>)
    ensures var steps := [Jump(target)] + rest;
            steps[1..] == rest && Jumps(steps) == Jumps(rest) + 1 && LabelsOf(steps) == LabelsOf(rest)
  {
    assert ([Jump(target)] + rest)[1..] == rest;
  }

  lemma {:induction false} ConsLiteral(name: bytes, text: bytes, rest: seq<Step>)
    ensures var steps := [Literal(text)] + rest;
            && steps[1..] == rest && Jumps(steps) == Jumps(rest)
            && Extend(name, LabelsOf(steps)) == Extend(AppendLabel(name, text), LabelsOf(rest))
  {
    var steps := [Literal(text)] + rest;
    assert steps[1..] == rest;
    assert LabelsOf(steps)[1..] == LabelsOf(rest);
  }

  /**
   * `read_name` succeeds exactly when the bytes derive a name with at most 16 pointers and at most 253 characters;
   * it then returns the dotted, lower-cased name and the position just past the first pointer or the root.
   */
  lemma {:induction false} ReadNameIff(msg: bytes, start: nat, name: bytes, end: nat)
    ensures ReadFrom(msg, start, [], None, 0) == Ok((name, end)) <==>
            exists steps :: Admissible(msg, start, steps)
                            && name == JoinDots(LabelsOf(steps)) && end == EndOf(start, steps)
  {
    if ReadFrom(msg, start, [], None, 0).Ok? {
      var steps := AcceptedHasDerivation(msg, start, [], None, 0);
      DerivedLabels(msg, start, steps);
      ExtendIsJoin(LabelsOf(steps));
      AcceptsDerivation(msg, start, steps, [], None, 0);
      assert Admissible(msg, start, steps);
    }
    forall steps | Admissible(msg, start, steps)
      ensures ReadFrom(msg, start, [], None, 0) == Ok((JoinDots(LabelsOf(steps)), EndOf(start, steps)))
    {
      DerivedLabels(msg, start, steps);
      ExtendIsJoin(LabelsOf(steps));
      AcceptsDerivation(msg, start, steps, [], None, 0);
    }
  }
}
