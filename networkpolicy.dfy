/** Table rendering of network policies for antctl (networkpolicy/transform.go). A response is
    the decoded policy itself; rendering is a fixed header, a six-cell row and a sort flag. */
module NetworkPolicyTransform {
  import opened Common
  import opened Decimal

  newtype Int32 = x: int | -0x8000_0000 <= x < 0x8000_0000

  /** An IEEE 754 binary64 value, kept as its bit pattern. */
  datatype Float64 = Float64(bits: bv64)

  /** strconv.FormatFloat(f, 'f', -1, 64): shortest decimal that reads back as f. Floating-point
      formatting is not part of this model, so callers pass it in. */
  type FloatFormatter = Float64 -> string

  /** A policy priority field: a nil pointer, an *int32 or an *float64. */
  datatype Priority = Absent | I32(i: Int32) | F64(f: Float64)

  /** The decoded control-plane policy. Rules and the source reference are opaque here: the row
      only counts the rules and renders the reference through its own ToString. */
  datatype NetworkPolicy<Rule, SourceRef> = NetworkPolicy(
    name: string,
    appliedToGroups: seq<string>,
    rules: seq<Rule>,
    sourceRef: SourceRef,
    tierPriority: Priority,
    priority: Priority)

  /** A nil priority renders as the empty cell (never as "0"); an int32 renders as its
      canonical decimal spelling, which reads back as the same value; a float64 renders through
      the float formatter. */
  function PriorityToString(p: Priority, formatFloat: FloatFormatter): (s: string)
    ensures p.Absent? ==> s == ""
    ensures p.I32? ==> IsCanonicalInt(s) && ParseInt(s) == Some(p.i as int)
    ensures p.F64? ==> s == formatFloat(p.f)
  {
    match p
    case Absent => ""
    case I32(v) =>
      ParseIntToString(v as int);
      IntToString(v as int)
    case F64(f) => formatFloat(f)
  }

  /** Outside the float case the empty cell means exactly "no priority". */
  lemma EmptyCellMeansAbsent(p: Priority, formatFloat: FloatFormatter)
    requires !p.F64?
    ensures PriorityToString(p, formatFloat) == "" <==> p.Absent?
    ensures PriorityToString(p, formatFloat) != "0" || p == I32(0)
  {
  }

  datatype Response<Rule, SourceRef> = Response(policy: NetworkPolicy<Rule, SourceRef>) {

    function GetTableHeader(): (header: seq<string>)
      ensures header == ["NAME", "APPLIED-TO", "RULES", "SOURCE", "TIER-PRIORITY", "PRIORITY"]
    {
      ["NAME", "APPLIED-TO", "RULES", "SOURCE", "TIER-PRIORITY", "PRIORITY"]
    }

    /** One cell per header column: the name, the summarised applied-to groups, the number of
        rules in decimal, the rendered source reference, then the two priorities. */
    function GetTableRow(maxColumnLength: int, summarize: Summarizer,
                         sourceRefToString: SourceRef -> string,
                         formatFloat: FloatFormatter): (row: seq<string>)
      ensures |row| == |GetTableHeader()|
      ensures row[0] == policy.name
      ensures row[1] == summarize(policy.appliedToGroups, maxColumnLength)
      ensures IsCanonicalInt(row[2]) && ParseInt(row[2]) == Some(|policy.rules|)
      ensures row[3] == sourceRefToString(policy.sourceRef)
      ensures row[4] == PriorityToString(policy.tierPriority, formatFloat)
      ensures row[5] == PriorityToString(policy.priority, formatFloat)
    {
      ParseIntToString(|policy.rules|);
      [policy.name, summarize(policy.appliedToGroups, maxColumnLength),
       IntToString(|policy.rules|), sourceRefToString(policy.sourceRef),
       PriorityToString(policy.tierPriority, formatFloat),
       PriorityToString(policy.priority, formatFloat)]
    }

    /** Policies keep the order they arrive in: the printer must not re-sort their rows. */
    function SortRows(): (sorted: bool)
      ensures !sorted
    {
      false
    }
  }
}
