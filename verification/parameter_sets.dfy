/** The parameter-packet path, reduced to its one rule: the records' encoded
    parameter bytes are decoded in order and a single record that does not
    decode makes the whole packet yield nothing. The JSON and Base64 decoders
    and the construction of the format description are foreign calls; the
    transport decoding is a parameter here. */
module ParameterSets {
  import opened Wire

  /** The decoding loop over the records: each decoded record's bytes are
      collected in order; the first record that does not decode ends the
      loop with no result. */
  method DecodeParameterSets(encoded: seq<string>, decode: string -> Option<Bytes>)
    returns (r: Option<seq<Bytes>>)
    ensures r.Some? <==> forall i :: 0 <= i < |encoded| ==> decode(encoded[i]).Some?
    ensures r.Some? ==> |r.value| == |encoded|
    ensures r.Some? ==> forall i :: 0 <= i < |encoded| ==> r.value[i] == decode(encoded[i]).value
  {
    var parameterSets: seq<Bytes> := [];
    for i := 0 to |encoded|
      invariant |parameterSets| == i
      invariant forall j :: 0 <= j < i ==> decode(encoded[j]).Some?
      invariant forall j :: 0 <= j < i ==> parameterSets[j] == decode(encoded[j]).value
    {
      match decode(encoded[i]) {
        case Some(data) =>
          parameterSets := parameterSets + [data];
        case None =>
          return None;
      }
    }
    return Some(parameterSets);
  }
}
