/** extract_towers_camelot.py: after the PDF tables are concatenated, every column label is
    cleaned (lines 18-21). A string label is stripped, lower-cased and has its spaces turned
    into underscores; any other label becomes "col_" followed by its position. */
module ExtractTowersCamelot {
  import opened Util

  /** A column label of the concatenated frame: a string, or some other value (camelot
      numbers its columns). Only whether it is a string matters to the cleaning. */
  datatype Header = Name(s: string) | NonString

  /** s.replace(" ", "_"). */
  function Underscored(s: string): (r: string)
    ensures |r| == |s|
    ensures forall k :: 0 <= k < |s| ==> r[k] == (if s[k] == ' ' then '_' else s[k])
  {
    if s == [] then [] else [if s[0] == ' ' then '_' else s[0]] + Underscored(s[1..])
  }

  /** str(c).strip().lower().replace(" ", "_") for a string c: as long as the stripped text,
      with no space and no upper-case letter left, every space of the stripped text an
      underscore and every other character lower-cased. */
  function CleanName(s: string): (r: string)
    ensures |r| == |PyStrip(s)|
    ensures forall k :: 0 <= k < |r| ==> r[k] != ' ' && !IsUpper(r[k])
    ensures forall k :: 0 <= k < |r| ==>
      r[k] == (if PyStrip(s)[k] == ' ' then '_' else LowerChar(PyStrip(s)[k]))
  {
    Underscored(Lower(PyStrip(s)))
  }

  /** The label the comprehension gives the header at position i. */
  function CleanLabel(c: Header, i: nat): string {
    match c
    case Name(s) => CleanName(s)
    case NonString => "col_" + NatToString(i)
  }

  /** The comprehension over enumerate(df_all.columns). */
  function CleanColumns(columns: seq<Header>): (r: seq<string>)
    ensures |r| == |columns|
  {
    seq(|columns|, i requires 0 <= i < |columns| => CleanLabel(columns[i], i))
  }

  /** A non-string label at position i becomes "col_i", written with the decimal digits of i. */
  lemma NonStringLabel(columns: seq<Header>, i: nat)
    requires i < |columns| && columns[i] == NonString
    ensures var r := CleanColumns(columns)[i];
      |r| > 4 && r[..4] == "col_" && forall k :: 4 <= k < |r| ==> IsDigit(r[k])
    ensures CleanColumns(columns)[i] == "col_" + NatToString(i)
  {
  }

  /** Two non-string labels at different positions get different names. */
  lemma NonStringLabelsDiffer(columns: seq<Header>, i: nat, j: nat)
    requires i < |columns| && j < |columns| && i != j
    requires columns[i] == NonString && columns[j] == NonString
    ensures CleanColumns(columns)[i] != CleanColumns(columns)[j]
  {
    var a, b := CleanColumns(columns)[i], CleanColumns(columns)[j];
    if a == b {
      assert a[4..] == NatToString(i) && b[4..] == NatToString(j);
      NatToStringInjective(i, j);
    }
  }

  /** Distinct numbers have distinct decimal forms. */
  lemma {:induction false} NatToStringInjective(n: nat, m: nat)
    requires NatToString(n) == NatToString(m)
    ensures n == m
    decreases n
  {
    if n >= 10 && m >= 10 {
      var sn, sm := NatToString(n), NatToString(m);
      assert sn[..|sn| - 1] == NatToString(n / 10) && sm[..|sm| - 1] == NatToString(m / 10);
      assert sn[|sn| - 1] == (48 + n % 10) as char && sm[|sm| - 1] == (48 + m % 10) as char;
      NatToStringInjective(n / 10, m / 10);
    }
  }

  /** A cleaned name is unchanged by a second cleaning. */
  lemma CleanNameIdempotent(s: string)
    ensures CleanName(CleanName(s)) == CleanName(s)
  {
    var r := CleanName(s);
    PyStripSpec(s);
    assert r != [] ==> !IsPyWhitespace(r[0]) && !IsPyWhitespace(r[|r| - 1]);
    PyStripNoop(r);
    LowerOfLower(r);
    UnderscoredNoSpace(r);
  }

  /** Lower-casing a string without upper-case letters changes nothing. */
  lemma LowerOfLower(s: string)
    requires forall k :: 0 <= k < |s| ==> !IsUpper(s[k])
    ensures Lower(s) == s
  {
  }

  /** Replacing the spaces of a string without spaces changes nothing. */
  lemma UnderscoredNoSpace(s: string)
    requires forall k :: 0 <= k < |s| ==> s[k] != ' '
    ensures Underscored(s) == s
  {
  }

  /** Cleaning the columns a second time, as string labels, leaves them as they are. */
  lemma CleanColumnsIdempotent(columns: seq<Header>)
    ensures var r := CleanColumns(columns);
      CleanColumns(seq(|r|, i requires 0 <= i < |r| => Name(r[i]))) == r
  {
    var r := CleanColumns(columns);
    var again := seq(|r|, i requires 0 <= i < |r| => Name(r[i]));
    forall i | 0 <= i < |r| ensures CleanColumns(again)[i] == r[i] {
      match columns[i]
      case Name(s) => CleanNameIdempotent(s);
      case NonString => NonStringClean(i);
    }
  }

  /** "col_i" is already clean. */
  lemma NonStringClean(i: nat)
    ensures CleanName("col_" + NatToString(i)) == "col_" + NatToString(i)
  {
    var s := "col_" + NatToString(i);
    assert forall k :: 0 <= k < |s| ==> !IsPyWhitespace(s[k]) && !IsUpper(s[k]) && s[k] != ' ' by {
      forall k | 0 <= k < |s| ensures !IsPyWhitespace(s[k]) && !IsUpper(s[k]) && s[k] != ' ' {
        if k >= 4 {
          assert s[k] == NatToString(i)[k - 4];
        }
      }
    }
    PyStripNoop(s);
    LowerOfLower(s);
    UnderscoredNoSpace(s);
  }
}
