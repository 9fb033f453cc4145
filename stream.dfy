/**
 * streamClass.py: a stream record. The four numeric arguments are converted with Python's `int()`
 * and stored; the name, the type and both endpoints are stored as given. The endpoints are node
 * objects in the source; the record keeps them by name, which is all `__repr__` and the traversals use.
 */
module StreamRecord {
  import opened Wrappers
  import opened Text

  datatype Stream = Stream(
    pcp: int,
    streamName: string,
    streamType: string,
    sourceNode: string,
    destinationNode: string,
    size: int,
    period: int,
    deadline: int)

  /** The numeric argument whose `int()` conversion raised `ValueError`, in the order the constructor converts them. */
  datatype BadField = Pcp | Size | Period | Deadline

  /** The argument text a `BadField` stands for. */
  function FieldText(f: BadField, pcp: string, size: string, period: string, deadline: string): string
  {
    match f
    case Pcp => pcp
    case Size => size
    case Period => period
    case Deadline => deadline
  }

  /**
   * `Stream(pcp, stream_name, stream_type, source_node, destination_node, size, period, deadline)`.
   * Any integer is accepted: there is no range check on the priority code point, the size, the
   * period or the deadline.
   */
  function NewStream(pcp: string, streamName: string, streamType: string, sourceNode: string,
                     destinationNode: string, size: string, period: string, deadline: string): (r: Result<Stream, BadField>)
    ensures r.Success? <==>
      ParseInt(pcp).Some? && ParseInt(size).Some? && ParseInt(period).Some? && ParseInt(deadline).Some?
    ensures r.Success? ==>
      && Some(r.value.pcp) == ParseInt(pcp) && Some(r.value.size) == ParseInt(size)
      && Some(r.value.period) == ParseInt(period) && Some(r.value.deadline) == ParseInt(deadline)
      && r.value.streamName == streamName && r.value.streamType == streamType
      && r.value.sourceNode == sourceNode && r.value.destinationNode == destinationNode
    ensures r.Failure? ==> ParseInt(FieldText(r.error, pcp, size, period, deadline)).None?
    ensures r.Failure? && r.error != Pcp ==> ParseInt(pcp).Some?
    ensures r.Failure? && (r.error == Period || r.error == Deadline) ==> ParseInt(size).Some?
    ensures r.Failure? && r.error == Deadline ==> ParseInt(period).Some?
  {
    match ParseInt(pcp)
    case None => Failure(Pcp)
    case Some(p) =>
      match ParseInt(size)
      case None => Failure(Size)
      case Some(z) =>
        match ParseInt(period)
        case None => Failure(Period)
        case Some(q) =>
          match ParseInt(deadline)
          case None => Failure(Deadline)
          case Some(d) => Success(Stream(p, streamName, streamType, sourceNode, destinationNode, z, q, d))
  }

  /** Building a stream from the decimal renderings of any record's numbers gives that record back, negative values included. */
  lemma NewStreamRoundTrip(s: Stream)
    ensures NewStream(IntToString(s.pcp), s.streamName, s.streamType, s.sourceNode, s.destinationNode,
                      IntToString(s.size), IntToString(s.period), IntToString(s.deadline)) == Success(s)
  {
    ParseIntRoundTrip(s.pcp);
    ParseIntRoundTrip(s.size);
    ParseIntRoundTrip(s.period);
    ParseIntRoundTrip(s.deadline);
  }

  /** Whitespace that `int()` skips, around a numeric field, does not change the record. */
  lemma NewStreamIgnoresPadding(a: string, pcp: string, b: string, streamName: string, streamType: string,
                                sourceNode: string, destinationNode: string, size: string, period: string, deadline: string)
    requires AllBlank(IntBlanks, a) && AllBlank(IntBlanks, b)
    ensures NewStream(a + pcp + b, streamName, streamType, sourceNode, destinationNode, size, period, deadline)
         == NewStream(pcp, streamName, streamType, sourceNode, destinationNode, size, period, deadline)
  {
    ParseIntIgnoresPadding(a, pcp, b);
  }

  const ReprHead: string := "Stream(pcp="

  /** `__repr__`: the head, the priority code point, then every other field in declaration order. */
  function Repr(s: Stream): string
  {
    ReprHead + IntToString(s.pcp) + ReprRest(s)
  }

  function ReprRest(s: Stream): (r: string)
    ensures |r| > 0 && r[0] == ',' && r[|r| - 1] == ')'
  {
    ", stream_name='" + s.streamName + "', stream_type='" + s.streamType
      + "', source_node='" + s.sourceNode + "', destination_node='" + s.destinationNode
      + "', size=" + IntToString(s.size) + ", period=" + IntToString(s.period)
      + ", deadline=" + IntToString(s.deadline) + ")"
  }

  /** An int's rendering followed by text that starts with a comma reads back from before that comma. */
  lemma NumberBeforeComma(n: int, tail: string)
    requires |tail| > 0 && tail[0] == ','
    ensures var t := IntToString(n) + tail; ParseInt(t[..IndexOf(t, ',')]) == Some(n)
  {
    var num := IntToString(n);
    IntToStringChars(n);
    assert ',' !in num;
    IndexOfAppend(num, tail, ',');
    assert (num + tail)[..|num|] == num;
    ParseIntRoundTrip(n);
  }

  /**
   * The rendering starts with "Stream(pcp=" and ends with ")", and the priority code point reads
   * back from the text between that head and the first comma.
   */
  lemma ReprPcp(s: Stream)
    ensures StartsWith(Repr(s), ReprHead) && Repr(s)[|Repr(s)| - 1] == ')'
    ensures var rest := Repr(s)[|ReprHead|..]; ParseInt(rest[..IndexOf(rest, ',')]) == Some(s.pcp)
  {
    Framed(ReprHead, IntToString(s.pcp), ReprRest(s));
    NumberBeforeComma(s.pcp, ReprRest(s));
  }

  /** The pieces of `head + mid + tail` sit where they were put. */
  lemma Framed(head: string, mid: string, tail: string)
    requires |tail| > 0
    ensures var r := head + mid + tail;
      r[..|head|] == head && r[|head|..] == mid + tail && r[|r| - 1] == tail[|tail| - 1]
  {
    var r := head + mid + tail;
    assert r[..|head|] == head;
    assert r[|head|..] == mid + tail;
  }
}
