/** Ranges of 32-bit indices into a shared text or index table. */
module Spans {

  const U32_MAX: nat := 0xFFFF_FFFF

  datatype Span = Span(start: nat, len: nat)

  predicate InBounds<T>(s: seq<T>, span: Span) {
    span.start + span.len <= |s|
  }

  function Slice<T>(s: seq<T>, span: Span): seq<T>
    requires InBounds(s, span)
  {
    s[span.start..span.start + span.len]
  }

  /** A range keeps its contents while the table grows behind it. */
  lemma SliceStays<T>(s: seq<T>, more: seq<T>, span: Span)
    requires InBounds(s, span)
    ensures InBounds(s + more, span) && Slice(s + more, span) == Slice(s, span)
  {
  }
}
