/**
 * The field-change handlers of src/components/EmployeeForm.jsx, as updates
 * of the employee form state.  `handleCNICChange` carries its own copy of
 * the CNIC mask; it is modelled as written and proved to agree with
 * `formatCNIC`.
 */
module EmployeeForm {
  import opened JsValues
  import opened Text
  import Cnic = CnicFormatter

  /** The `maxLength` attribute of the CNIC input. */
  const CnicMaxLength: nat := 15

  /** `handleChange`: `{ ...prev, [name]: value }`. */
  function HandleChange(prev: Record, name: string, value: string): (r: Record)
    ensures r.Keys == prev.Keys + {name}
    ensures r[name] == Str(value)
    ensures forall k :: k in prev && k != name ==> r[k] == prev[k]
  {
    prev[name := Str(value)]
  }

  /** The mask `handleCNICChange` computes inline: strip the non-digits, keep
      at most 13, insert the dashes.  It is the same string `formatCNIC`
      produces, for every input. */
  method InlineCnicMask(input: string) returns (formatted: string)
    ensures formatted == Cnic.FormatCnic(input)
  {
    var value := "";
    var i := 0;
    while i < |input|
      invariant 0 <= i <= |input|
      invariant value == Cnic.Digits(input[..i])
    {
      assert input[..i + 1] == input[..i] + [input[i]];
      Cnic.DigitsAppend(input[..i], [input[i]]);
      if IsDigit(input[i]) {
        value := value + [input[i]];
      }
      i := i + 1;
    }
    assert input[..i] == input;
    if |value| > 13 {
      value := value[..13];
    }
    formatted := "";
    if |value| > 0 {
      formatted := value[..Cnic.Min(5, |value|)];
    }
    if |value| > 5 {
      formatted := formatted + "-" + value[5..Cnic.Min(12, |value|)];
    }
    if |value| > 12 {
      formatted := formatted + "-" + value[12..13];
    }
  }

  /** `handleCNICChange`: only the `cnic` field changes, to the formatted
      mask, which always fits the input's `maxLength`. */
  method HandleCnicChange(prev: Record, input: string) returns (r: Record)
    ensures r.Keys == prev.Keys + {"cnic"}
    ensures r["cnic"] == Str(Cnic.FormatCnic(input))
    ensures |r["cnic"].s| <= CnicMaxLength
    ensures forall k :: k in prev && k != "cnic" ==> r[k] == prev[k]
  {
    var formatted := InlineCnicMask(input);
    r := prev["cnic" := Str(formatted)];
  }
}
