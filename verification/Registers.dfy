/** What an edge of a table does to the registers, and callbacks that differ because of them. */
module Registers {
  import opened ParserTables
  import opened Machine
  import opened Segmentation

  /** What an edge does to the three registers. */
  function MarkAfter(e: Edge, mark: nat, p: nat): nat {
    if e.a1.Mark? || e.a2.Mark? || e.a3.Mark? || e.a4.Mark? then p else mark
  }

  function StartAfter(e: Edge, start: nat, p: nat): nat {
    if e.a1.StartField? || e.a2.StartField? || e.a3.StartField? || e.a4.StartField? then p else start
  }

  /** A name ends only as an edge's first act, in front of every other one of the three. */
  predicate EndsFirst(e: Edge) {
    !e.a2.EndField? && !e.a3.EndField? && !e.a4.EndField?
  }

  lemma RegistersAfter(e: Edge, m: Parser, buffer: string, p: nat)
    requires EndsFirst(e) && m.fieldStart <= p
    ensures var r := Fire(e, m, buffer, p);
            && r.mark == MarkAfter(e, m.mark, p) && r.fieldStart == StartAfter(e, m.fieldStart, p)
            && r.fieldLen == if e.a1.EndField? then p - m.fieldStart else m.fieldLen
  {
    hide Act;
    ActRegisters(e.a1, m, buffer, p);
    var m1 := Act(e.a1, m, buffer, p);
    ActRegisters(e.a2, m1, buffer, p);
    var m2 := Act(e.a2, m1, buffer, p);
    ActRegisters(e.a3, m2, buffer, p);
    ActRegisters(e.a4, Act(e.a3, m2, buffer, p), buffer, p);
  }

  lemma ActRegisters(x: Action, m: Parser, buffer: string, p: nat)
    ensures var r := Act(x, m, buffer, p);
            && r.mark == (if x.Mark? then p else m.mark) && r.fieldStart == (if x.StartField? then p else m.fieldStart)
            && r.fieldLen == if x.EndField? then (if m.fieldStart <= p then p - m.fieldStart else 0) else m.fieldLen
  {
    hide NumberAt, Slice;
  }

  /** A longer and a shorter piece of the text. */
  lemma LongerSlice(a: string, b: string, mark: nat, p: nat)
    requires mark < |a| && p <= |b|
    ensures |Slice(a + b, mark, |a| + p)| > |Slice(b, 0, p)|
  {
  }

  lemma PartAt(a: seq<Event>, b: seq<Event>, k: nat)
    requires k < |a| && k < |b| && a[k] != b[k]
    ensures Part(a, b)
  {
  }

  lemma EmitsFieldHere(m: Parser, s: string, p: nat)
    ensures Act(EmitField, m, s, p).events
            == m.events + [Field(Slice(s, m.fieldStart, m.fieldStart + m.fieldLen), Slice(s, m.mark, p))]
  {
  }
}
