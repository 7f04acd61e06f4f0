/**
 * LangChain's `Document` as the scripts see it: page text and a metadata
 * dictionary, whose entries keep their insertion order.
 */
module Documents {
  import opened Numerals

  /** A metadata value: None, a string, an int, a bool, or any other value
      carried with the text `str()` gives for it. */
  datatype Scalar = Null | Str(s: string) | Int(i: int) | Bool(b: bool) | Other(text: string)

  /** A dict, as its (key, value) entries in iteration order. */
  type Metadata = seq<(string, Scalar)>

  datatype Document = Document(content: string, metadata: Metadata)

  /** A dict never holds one key twice. */
  predicate UniqueKeys(m: Metadata) {
    forall i, j | 0 <= i < j < |m| :: m[i].0 != m[j].0
  }

  /** `str(n)` for an int. */
  function IntString(n: int): (r: string)
    ensures n >= 0 ==> r == Decimal(n)
    ensures n < 0 ==> |r| == |Decimal(-n)| + 1 && r[0] == '-' && r[1..] == Decimal(-n)
  {
    if n < 0 then "-" + Decimal(-n) else Decimal(n)
  }

  /** `str(value)`, as an f-string renders a metadata value. */
  function Render(v: Scalar): string {
    match v
    case Null => "None"
    case Str(s) => s
    case Int(n) => IntString(n)
    case Bool(b) => if b then "True" else "False"
    case Other(text) => text
  }
}
