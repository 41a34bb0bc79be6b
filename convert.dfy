/** DatabaseMigrator::convert_value: turns a non-empty cell of the source
    result into the text put between quotes in an INSERT, according to the
    declared type of the column rule. */
module Convert {
  import opened Wrappers
  import Text
  import Base64

  /** std::string::find(c, from); |s| plays the part of npos. */
  function Find(s: string, c: char, from: nat): (k: nat)
    requires from <= |s|
    ensures from <= k <= |s|
    ensures k < |s| ==> s[k] == c
    ensures forall i :: from <= i < k ==> s[i] != c
    decreases |s| - from
  {
    if from == |s| then |s| else if s[from] == c then from else Find(s, c, from + 1)
  }

  /** The bytes of a std::string: a `char` stands for one byte. */
  function ToBytes(v: string): seq<Base64.Byte> {
    seq(|v|, i requires 0 <= i < |v| => (v[i] as int) % 256)
  }

  predicate IsByteString(v: string) {
    forall i :: 0 <= i < |v| ==> (v[i] as int) < 256
  }

  function FromBytes(b: seq<Base64.Byte>): string {
    seq(|b|, i requires 0 <= i < |b| => b[i] as char)
  }

  /** The BIGINT branch: one backslash is taken off each end when the value
      both starts and ends with one. A lone backslash counts as both ends. */
  function StripBackslashes(v: string): string {
    if |v| >= 1 && v[0] == '\\' && v[|v| - 1] == '\\' then
      (if |v| == 1 then "" else v[1..|v| - 1])
    else v
  }

  /** The VARCHAR branch: when the VALUE holds a '(' with a ')' after it,
      the text between them goes through std::stoi (whose failure is the
      failure of the whole call), and the part of the value before the '('
      is returned. Otherwise the value is returned as it is. */
  function TrimAtParen(v: string): Result<string, Text.StoiError> {
    var open := Find(v, '(', 0);
    if open == |v| then Success(v)
    else
      var close := Find(v, ')', open);
      if close == |v| then Success(v)
      else match Text.Stoi(v[open + 1..close])
        case Failure(e) => Failure(e)
        case Success(_) => Success(v[..open])
  }

  /** convert_value(value, type); the type must equal one of the three
      names exactly, any other type leaves the value as it is. */
  function ConvertValue(value: string, typ: string): (r: Result<string, Text.StoiError>)
    ensures r.Failure? ==> typ == "VARCHAR"
    ensures typ != "BASE64" && typ != "VARCHAR" && typ != "BIGINT" ==> r == Success(value)
  {
    if typ == "BASE64" then Success(Base64.Encode(ToBytes(value)))
    else if typ == "VARCHAR" then TrimAtParen(value)
    else if typ == "BIGINT" then Success(StripBackslashes(value))
    else Success(value)
  }

  // ------------------------------------------------------------- properties

  /** BIGINT never fails; a value wrapped in backslashes comes back without
      them (putting them back gives the value again, and a lone backslash
      gives ""), and any other value comes back unchanged. */
  lemma BigintStrips(v: string)
    ensures ConvertValue(v, "BIGINT").Success?
    ensures var r := ConvertValue(v, "BIGINT").value;
      if |v| > 0 && v[0] == '\\' && v[|v| - 1] == '\\' then
        (v == "\\" && r == "") || (|v| >= 2 && "\\" + r + "\\" == v)
      else r == v
    ensures |v| >= 2 ==> |ConvertValue(v, "BIGINT").value| >= |v| - 2
  {
    if |v| >= 2 && v[0] == '\\' && v[|v| - 1] == '\\' {
      assert v == [v[0]] + v[1..|v| - 1] + [v[|v| - 1]];
    }
  }

  /** VARCHAR with no '(' in the value, or none followed by a ')', is the
      identity. */
  lemma VarcharWithoutPair(v: string)
    requires (forall i :: 0 <= i < |v| ==> v[i] != '(') ||
             (exists o :: 0 <= o < |v| && v[o] == '(' && (forall i :: 0 <= i < o ==> v[i] != '(') &&
                          forall i :: o < i < |v| ==> v[i] != ')')
    ensures ConvertValue(v, "VARCHAR") == Success(v)
  {
    var open := Find(v, '(', 0);
    if open < |v| {
      var o :| 0 <= o < |v| && v[o] == '(' && (forall i :: 0 <= i < o ==> v[i] != '(') &&
                forall i :: o < i < |v| ==> v[i] != ')';
      assert open == o;
    }
  }

  /** VARCHAR on a value whose first '(' at o is followed by a ')' at c
      (the first one after o): the result is the prefix of the value before
      o, or the std::stoi failure on the text between the parentheses. */
  lemma VarcharWithPair(v: string, o: nat, c: nat)
    requires o < c < |v| && v[o] == '(' && v[c] == ')'
    requires forall i :: 0 <= i < o ==> v[i] != '('
    requires forall i :: o < i < c ==> v[i] != ')'
    ensures ConvertValue(v, "VARCHAR") ==
              match Text.Stoi(v[o + 1..c])
              case Success(_) => Success(v[..o])
              case Failure(e) => Failure(e)
    ensures ConvertValue(v, "VARCHAR").Success? ==> forall i :: 0 <= i < |ConvertValue(v, "VARCHAR").value| ==> ConvertValue(v, "VARCHAR").value[i] != '('
  {
    assert Find(v, '(', 0) == o;
    assert Find(v, ')', o) == c;
  }

  /** VARCHAR fails exactly when the text between the first '(' and the
      next ')' has no digit after its leading white space and sign, or
      holds a number outside the 32-bit range. */
  lemma VarcharFailure(v: string, o: nat, c: nat)
    requires o < c < |v| && v[o] == '(' && v[c] == ')'
    requires forall i :: 0 <= i < o ==> v[i] != '('
    requires forall i :: o < i < c ==> v[i] != ')'
    ensures var inner := v[o + 1..c];
      && (ConvertValue(v, "VARCHAR") == Failure(Text.NoConversion) <==>
            !(Text.DigitStart(inner) < |inner| && Text.IsDigit(inner[Text.DigitStart(inner)])))
      && (ConvertValue(v, "VARCHAR") == Failure(Text.OutOfRange) <==> Text.BeyondInt(inner))
  {
    VarcharWithPair(v, o, c);
    Text.StoiNoConversion(v[o + 1..c]);
    Text.StoiOutOfRange(v[o + 1..c]);
  }

  lemma BytesRoundTrip(v: string)
    requires IsByteString(v)
    ensures FromBytes(ToBytes(v)) == v
  {
    var b := ToBytes(v);
    forall i | 0 <= i < |v|
      ensures FromBytes(b)[i] == v[i]
    {
      assert b[i] == v[i] as int;
    }
  }

  /** BASE64 never fails and decoding its result gives back the value. */
  lemma Base64Decodes(v: string)
    requires IsByteString(v)
    ensures ConvertValue(v, "BASE64").Success?
    ensures var d := Base64.Decode(ConvertValue(v, "BASE64").value);
      d.Some? && FromBytes(d.value) == v
  {
    var b := ToBytes(v);
    var e := Base64.Encode(b);
    assert ConvertValue(v, "BASE64") == Success(e);
    Base64.RoundTrip(b);
    BytesRoundTrip(v);
  }

  /** The declared type must match exactly: a type carrying a length, such
      as "VARCHAR(10)", takes the identity branch. */
  lemma TypeMatchedExactly(v: string)
    ensures ConvertValue(v, "VARCHAR(10)") == Success(v)
    ensures ConvertValue(v, "TEXT") == Success(v)
    ensures ConvertValue(v, "") == Success(v)
  {
  }
}
