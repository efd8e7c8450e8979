/** One address space (I/O ports or memory-mapped I/O) of the Global Coherency Domain, as the
    host bridge driver sees it. */
module Gcd {
  import opened Efi
  import opened Words

  /** pool: addresses of the requested type that no other driver owns;
      owned: those currently allocated to this driver. */
  datatype GcdSpace = GcdSpace(pool: set<int>, owned: set<int>)

  /** What the DXE core decides: which free range an allocation receives, and whether a service finds the
      memory for its own bookkeeping.  Every call takes an answer; one that the service's contract does not
      permit counts as a refusal. */
  datatype Answer = Grant(base: nat) | Refuse(status: EfiStatus)

  /** The addresses base, ..., base + length - 1. */
  function Span(base: int, length: nat): (s: set<int>)
    ensures forall a :: a in s <==> base <= a < base + length
  {
    if length == 0 then {} else Span(base, length - 1) + {base + length - 1}
  }

  predicate Grantable(s: GcdSpace, bits: nat, length: nat, max: int, base: nat) {
    && base % Pow2(bits) == 0
    && base + length - 1 <= max
    && Span(base, length) <= s.pool - s.owned
  }

  function Refusal(answer: Answer): (r: EfiStatus)
    ensures r.IsError()
  {
    match answer
    case Grant(_) => NotFound
    case Refuse(st) => if st.IsError() then st else NotFound
  }

  /** AllocateIoSpace/AllocateMemorySpace with EfiGcdAllocateMaxAddressSearchTopDown. */
  function Allocate(s: GcdSpace, bits: nat, length: nat, max: int, answer: Answer): (r: (GcdSpace, EfiStatus, nat))
    ensures r.1.Success? ==> length > 0 && Grantable(s, bits, length, max, r.2)
    ensures r.1.Success? ==> r.0 == s.(owned := s.owned + Span(r.2, length))
    ensures r.1.IsError() ==> r.0 == s
  {
    if bits >= 64 then (s, NotFound, 0)
    else if length == 0 then (s, InvalidParameter, 0)
    else if answer.Grant? && Grantable(s, bits, length, max, answer.base) then
      (s.(owned := s.owned + Span(answer.base, length)), Success, answer.base)
    else (s, Refusal(answer), 0)
  }

  /** FreeIoSpace/FreeMemorySpace.  The core does not ask who owns the range: it frees whatever is
      allocated there, unless it refuses. */
  function Free(s: GcdSpace, base: nat, length: nat, answer: Answer): (GcdSpace, EfiStatus) {
    if length == 0 then (s, InvalidParameter)
    else if Refused(answer) then (s, Refusal(answer))
    else (s.(owned := s.owned - Span(base, length)), Success)
  }

  predicate Refused(answer: Answer) {
    answer.Refuse? && answer.status.IsError()
  }

  /** Freeing what was just allocated restores the space. */
  lemma FreeUndoesAllocate(s: GcdSpace, bits: nat, length: nat, max: int, granted: Answer, freed: Answer)
    ensures var (t, st, base) := Allocate(s, bits, length, max, granted);
            st.Success? && !Refused(freed) ==> Free(t, base, length, freed) == (s, Success)
  {
    var (t, st, base) := Allocate(s, bits, length, max, granted);
    assert st.Success? ==> (s.owned + Span(base, length)) - Span(base, length) == s.owned;
  }
}
