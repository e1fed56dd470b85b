/** JavaScript strings as sequences of UTF-16 code units, and the outcome type shared by the models. */
module JsStrings {

  type CodeUnit = x: int | 0 <= x < 0x1_0000
  type JsString = seq<CodeUnit>

  type Byte = x: int | 0 <= x < 0x100
  type Bytes = seq<Byte>

  datatype Option<+T> = None | Some(value: T)

  datatype Result<+T, +E> = Ok(value: T) | Err(error: E)

  predicate IsLead(u: int) {
    0xD800 <= u <= 0xDBFF
  }

  predicate IsTrail(u: int) {
    0xDC00 <= u <= 0xDFFF
  }

  /** Well-formed UTF-16: surrogates occur only as a lead directly followed by a trail. */
  predicate WellFormed16(s: seq<int>) {
    if s == [] then true
    else if IsLead(s[0]) then |s| >= 2 && IsTrail(s[1]) && WellFormed16(s[2..])
    else !IsTrail(s[0]) && WellFormed16(s[1..])
  }

  /** The code point a surrogate pair stands for. */
  function Join16(lead: int, trail: int): int
    requires IsLead(lead) && IsTrail(trail)
  {
    (lead - 0xD800) * 0x400 + (trail - 0xDC00) + 0x1_0000
  }

  /** The code units written for a code point; above U+FFFF only the low 20 bits of the offset survive. */
  function Units16(v: nat): JsString {
    if v > 0xFFFF then [0xD800 + (v - 0x1_0000) / 0x400 % 0x400, 0xDC00 + (v - 0x1_0000) % 0x400]
    else [v]
  }
}
