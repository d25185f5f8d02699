/** Questions and the check that an answer echoes the one asked. */
module DnsQuestion {
  import opened Octets

  datatype Question = Question(name: Bytes, qtype: uint16, qclass: uint16)

  datatype Msg = Msg(id: uint16, questions: seq<Question>, rest: Bytes)

  predicate EqualFold(a: Bytes, b: Bytes)
  {
    |a| == |b| && forall i :: 0 <= i < |a| ==> LowerByte(a[i]) == LowerByte(b[i])
  }

  /** validateResponseQuestion */
  predicate ValidResponseQuestion(q: Msg, a: Msg)
  {
    if q.questions == [] then true
    else if a.questions == [] then false
    else
      && EqualFold(a.questions[0].name, q.questions[0].name)
      && a.questions[0].qclass == q.questions[0].qclass
      && a.questions[0].qtype == q.questions[0].qtype
  }
}
