/** The index registry of `BaseDaCalculadoraDoCidadão`: the fixed table of
    monetary-correction indices the remote calculator offers, the default
    index, and the validation the constructor performs. */
module Registry {
  import opened Wrappers
  import opened Strings

  /** The registry keys in the table's declaration order, which is the
      order in which a Python `dict` yields its keys. */
  const IndexKeys: seq<string> := [
    "00189IGP-M", "00190IGP-DI", "00188INPC", "00433IPCA",
    "10764IPC-E", "00191IPC-BRASIL", "00193IPC-SP"
  ]

  /** `ÍNDICES`: registry key to its human-readable label. */
  const Indices: map<string, string> := map[
    "00189IGP-M" := "IGP-M (FGV) - a partir de 06/1989",
    "00190IGP-DI" := "IGP-DI (FGV) - a partir de 02/1944",
    "00188INPC" := "INPC (IBGE) - a partir de 04/1979",
    "00433IPCA" := "IPCA (IBGE) - a partir de 01/1980",
    "10764IPC-E" := "IPCA-E (IBGE) - a partir de 01/1992",
    "00191IPC-BRASIL" := "IPC-BRASIL (FGV) - a partir de 01/1990",
    "00193IPC-SP" := "IPC-SP (FIPE) - a partir de 11/1942"
  ]

  /** `ÍNDICE_PADRÃO`. */
  const DefaultIndex: string := "00189IGP-M"

  /** The exception `ÍndiceInválido`, carrying its message. */
  datatype InvalidIndex = InvalidIndex(message: string)

  /** Python's `índice or ÍNDICE_PADRÃO`: both `None` and the empty string
      are falsy and fall back to the default. */
  function ChosenIndex(index: Option<string>): string
  {
    if index.None? || index.value == "" then DefaultIndex else index.value
  }

  /** The message of the exception raised for an unknown index: the
      offending key, then every valid key joined by ", ". */
  function InvalidIndexMessage(chosen: string): string
  {
    chosen + " não é um índice válido. Utilize um desses: " + Join(IndexKeys, ", ")
  }

  /** The validation at the start of the constructor: the chosen index
      when it is a registry key, the `ÍndiceInválido` error otherwise. */
  function ResolveIndex(index: Option<string>): Result<string, InvalidIndex>
  {
    var chosen := ChosenIndex(index);
    if chosen in Indices then Success(chosen)
    else Failure(InvalidIndex(InvalidIndexMessage(chosen)))
  }

  /** The key list is the table's key set, each key once. */
  lemma IndexKeysAreTheTable()
    ensures forall k :: k in IndexKeys <==> k in Indices
    ensures forall i, j :: 0 <= i < j < |IndexKeys| ==> IndexKeys[i] != IndexKeys[j]
    ensures DefaultIndex in Indices
  {
  }

  /** Validation succeeds exactly when the argument is absent, empty or a
      registry key; absent and empty both resolve to the default, and a
      registry key resolves to itself. */
  lemma ResolveIndexSucceeds(index: Option<string>)
    ensures ResolveIndex(index).Success? <==> index.None? || index.value == "" || index.value in Indices
    ensures index.None? || index.value == "" ==> ResolveIndex(index) == Success(DefaultIndex)
    ensures index.Some? && index.value in Indices ==> ResolveIndex(index) == Success(index.value)
  {
    IndexKeysAreTheTable();
  }

  /** Every registry key appears in the list of valid keys. */
  lemma JoinedKeysContain(k: string)
    requires k in Indices
    ensures Contains(Join(IndexKeys, ", "), k)
  {
    IndexKeysAreTheTable();
    var i :| 0 <= i < |IndexKeys| && IndexKeys[i] == k;
    JoinContains(IndexKeys, ", ", i);
  }

  /** An unknown, non-empty index fails with a message that starts with
      the index itself and names every registry key. */
  lemma ResolveIndexFails(index: string)
    requires index != "" && index !in Indices
    ensures ResolveIndex(Some(index)).Failure?
    ensures var m := ResolveIndex(Some(index)).error.message;
      && m[..|index|] == index
      && forall k :: k in Indices ==> Contains(m, k)
  {
    var prefix := index + " não é um índice válido. Utilize um desses: ";
    forall k | k in Indices
      ensures Contains(prefix + Join(IndexKeys, ", "), k)
    {
      JoinedKeysContain(k);
      ContainsAfterPrefix(prefix, Join(IndexKeys, ", "), k);
    }
  }
}
