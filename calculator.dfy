/** `BaseDaCalculadoraDoCidadão` as an object: it holds whether TLS
    certificates are checked and the fixed fields of the remote form, and
    builds the form data of one correction request. */
module Calculator {
  import opened Wrappers
  import opened Dates
  import opened Registry
  import opened FormEncoding
  import opened OrderedMaps

  /** The fields every request carries, in the order the constructor
      writes them. The index sent is always the default one. */
  const BaseForm: OrderedMap<string, string> := [
    ("aba", "1"),
    ("selIndice", DefaultIndex),
    ("idIndice", ""),
    ("nomeIndicePeriodo", "")
  ]

  /** The fields `dados_para_requisição` adds for each request. */
  const StartField: string := "dataInicial"
  const EndField: string := "dataFinal"
  const AmountField: string := "valorCorrecao"

  lemma RequestFieldsDistinct()
    ensures StartField != EndField && StartField != AmountField && EndField != AmountField
  {
    assert StartField[4] != EndField[4];
    assert StartField[0] != AmountField[0] && EndField[0] != AmountField[0];
  }

  /** A form that holds none of the per-request fields. */
  predicate LacksRequestFields(form: OrderedMap<string, string>) {
    StartField !in Keys(form) && EndField !in Keys(form) && AmountField !in Keys(form)
  }

  class Calculator {
    var verifySsl: bool
    var formData: OrderedMap<string, string>

    /** The form data is a dict: each field once. */
    ghost predicate Valid()
      reads this
    {
      DistinctKeys(formData)
    }

    /** The field assignments of the constructor, once the index has been
        accepted. */
    constructor(verifySsl: bool)
      ensures this.verifySsl == verifySsl
      ensures formData == BaseForm
      ensures Valid()
    {
      this.verifySsl := verifySsl;
      formData := BaseForm;
      new;
      BaseFormFields();
    }

    /** `BaseDaCalculadoraDoCidadão(índice=None, verificar_ssl=True)`: fails with
        `ÍndiceInválido` unless `índice or ÍNDICE_PADRÃO` is a registry key;
        otherwise the new object holds the flag and the base form, whatever
        index was chosen. */
    static method New(index: Option<string> := None, verifySsl: bool := true) returns (r: Result<Calculator, InvalidIndex>)
      ensures r.Success? <==> ChosenIndex(index) in Indices
      ensures r.Failure? ==> r.error == InvalidIndex(InvalidIndexMessage(ChosenIndex(index)))
      ensures r.Success? ==> fresh(r.value) && r.value.Valid()
      ensures r.Success? ==> r.value.verifySsl == verifySsl && r.value.formData == BaseForm
    {
      var chosen := ResolveIndex(index);
      if chosen.Failure? {
        return Failure(chosen.error);
      }
      var c := new Calculator(verifySsl);
      return Success(c);
    }

    /** `dados_para_requisição`: a copy of the form data updated with the
        start month, the end month and the amount; when the form does not
        hold those fields yet, as the base form does not, they come after
        the existing ones. The object itself is not changed. */
    method RequestData(amountCents: int, original: Date, final: Date) returns (data: OrderedMap<string, string>)
      requires Valid()
      requires ValidDate(original) && ValidDate(final)
      ensures Get(data, StartField) == Some(FormatMonthYear(original))
      ensures Get(data, EndField) == Some(FormatMonthYear(final))
      ensures Get(data, AmountField) == Some(FormatAmount(amountCents))
      ensures forall k :: k != StartField && k != EndField && k != AmountField ==> Get(data, k) == Get(formData, k)
      ensures DistinctKeys(data)
      ensures LacksRequestFields(formData) ==> data == formData + [
        (StartField, FormatMonthYear(original)),
        (EndField, FormatMonthYear(final)),
        (AmountField, FormatAmount(amountCents))]
    {
      RequestFieldsDistinct();
      var start, end, amount := FormatMonthYear(original), FormatMonthYear(final), FormatAmount(amountCents);
      var d0 := formData;
      var d1 := SetField(d0, StartField, start);
      var d2 := SetField(d1, EndField, end);
      data := SetField(d2, AmountField, amount);
      if LacksRequestFields(formData) {
        assert EndField !in Keys(d1);
        assert AmountField !in Keys(d2);
        AppendThree(d0, (StartField, start), (EndField, end), (AmountField, amount));
      }
    }
  }

  lemma AppendThree<T>(s: seq<T>, a: T, b: T, c: T)
    ensures s + [a] + [b] + [c] == s + [a, b, c]
  {
  }

  /** The base form has distinct fields and none of the per-request ones. */
  lemma BaseFormFields()
    ensures DistinctKeys(BaseForm)
    ensures LacksRequestFields(BaseForm)
  {
    assert Keys(BaseForm) == ["aba", "selIndice", "idIndice", "nomeIndicePeriodo"];
  }

  /** One `dados[k] = v` of the update: `k` now maps to `v`, the other
      fields keep their values, the fields stay distinct, and a field the
      form did not hold is appended. */
  method SetField(m: OrderedMap<string, string>, k: string, v: string) returns (r: OrderedMap<string, string>)
    requires DistinctKeys(m)
    ensures Get(r, k) == Some(v)
    ensures forall x :: x != k ==> Get(r, x) == Get(m, x)
    ensures DistinctKeys(r)
    ensures k !in Keys(m) ==> r == m + [(k, v)]
    ensures forall x :: x in Keys(r) <==> x in Keys(m) || x == k
  {
    assert Keys(m + [(k, v)]) == Keys(m) + [k];
    AssignKeys(m, k, v);
    AssignDistinct(m, k, v);
    forall x
      ensures Get(Assign(m, k, v), x) == if x == k then Some(v) else Get(m, x)
    {
      AssignGet(m, k, v, x);
    }
    r := Assign(m, k, v);
  }
}
