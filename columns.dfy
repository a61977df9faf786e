/** Column handling of `load_data`: the canonical form of a header and the
    first-match search that assigns the count and station roles. */
module Columns {
  import opened Wrappers
  import opened Text

  /** A column label as pandas reads it from the header row: text, or some
      other value (a number, a date) whose `str()` is `shown`. */
  datatype ColumnLabel = TextLabel(text: string) | OtherLabel(shown: string)

  /** The accented letters the normaliser rewrites. */
  predicate IsAccented(c: char) {
    c == '\U{00F3}' || c == '\U{00E9}' || c == '\U{00ED}' || c == '\U{00E1}' || c == '\U{00FA}' || c == '\U{00F1}'
  }

  /** What the chain of one-letter replacements does to one character. */
  function HeaderChar(c: char): char {
    if c == '\U{00F3}' then 'o'
    else if c == '\U{00E9}' then 'e'
    else if c == '\U{00ED}' then 'i'
    else if c == '\U{00E1}' then 'a'
    else if c == '\U{00FA}' then 'u'
    else if c == '\U{00F1}' then 'n'
    else if c == ' ' then '_'
    else c
  }

  /** The canonical form of a header: strip, lower-case, replace ó é í á ú ñ by
      their plain letters and spaces by underscores, in the source's order. */
  function NormalizeHeader(h: string): string {
    var s := Lower(Strip(h));
    var s := ReplaceAll(s, "\U{00F3}", "o");
    var s := ReplaceAll(s, "\U{00E9}", "e");
    var s := ReplaceAll(s, "\U{00ED}", "i");
    var s := ReplaceAll(s, "\U{00E1}", "a");
    var s := ReplaceAll(s, "\U{00FA}", "u");
    var s := ReplaceAll(s, "\U{00F1}", "n");
    ReplaceAll(s, " ", "_")
  }

  /** The seven replacements amount to rewriting each character of the
      stripped, lower-cased header on its own. */
  lemma NormalizeHeaderByChar(h: string)
    ensures NormalizeHeader(h) == HeaderChars(Lower(Strip(h)))
  {
    var s0 := Lower(Strip(h));
    ReplaceCharAt(s0, '\U{00F3}', 'o');
    var s1 := ReplaceAll(s0, "\U{00F3}", "o");
    ReplaceCharAt(s1, '\U{00E9}', 'e');
    var s2 := ReplaceAll(s1, "\U{00E9}", "e");
    ReplaceCharAt(s2, '\U{00ED}', 'i');
    var s3 := ReplaceAll(s2, "\U{00ED}", "i");
    ReplaceCharAt(s3, '\U{00E1}', 'a');
    var s4 := ReplaceAll(s3, "\U{00E1}", "a");
    ReplaceCharAt(s4, '\U{00FA}', 'u');
    var s5 := ReplaceAll(s4, "\U{00FA}", "u");
    ReplaceCharAt(s5, '\U{00F1}', 'n');
    var s6 := ReplaceAll(s5, "\U{00F1}", "n");
    ReplaceCharAt(s6, ' ', '_');
    assert NormalizeHeader(h) == ReplaceAll(s6, " ", "_");
  }

  function HeaderChars(s: string): (r: string)
    ensures |r| == |s| && forall i :: 0 <= i < |s| ==> r[i] == HeaderChar(s[i])
  {
    seq(|s|, i requires 0 <= i < |s| => HeaderChar(s[i]))
  }

  /** A canonical header has no whitespace at either end, no space, none of
      ó é í á ú ñ and no upper-case letter. */
  predicate IsCanonicalHeader(s: string) {
    && Trimmed(s)
    && (forall i :: 0 <= i < |s| ==> s[i] != ' ' && !IsAccented(s[i]) && !IsUpperChar(s[i]))
  }

  lemma HeaderCharOfLower(c: char)
    ensures HeaderChar(LowerChar(c)) != ' '
    ensures !IsAccented(HeaderChar(LowerChar(c))) && !IsUpperChar(HeaderChar(LowerChar(c)))
    ensures !IsSpace(c) ==> !IsSpace(HeaderChar(LowerChar(c)))
  {
  }

  lemma NormalizeHeaderIsCanonical(h: string)
    ensures IsCanonicalHeader(NormalizeHeader(h))
  {
    var t := Strip(h);
    var r := HeaderChars(Lower(t));
    NormalizeHeaderByChar(h);
    StripIsTrimmedSlice(h);
    forall i | 0 <= i < |r|
      ensures r[i] != ' ' && !IsAccented(r[i]) && !IsUpperChar(r[i])
    {
      HeaderCharOfLower(t[i]);
    }
    if r != [] {
      HeaderCharOfLower(t[0]);
      HeaderCharOfLower(t[|t| - 1]);
    }
    assert IsCanonicalHeader(r);
  }

  /** Normalising a canonical header changes nothing. */
  lemma CanonicalHeaderIsFixed(s: string)
    requires IsCanonicalHeader(s)
    ensures NormalizeHeader(s) == s
  {
    StripIsTrimmedSlice(s);
    assert Lower(s) == s;
    NormalizeHeaderByChar(s);
  }

  /** Header normalisation is idempotent. */
  lemma NormalizeHeaderIdempotent(h: string)
    ensures NormalizeHeader(NormalizeHeader(h)) == NormalizeHeader(h)
  {
    NormalizeHeaderIsCanonical(h);
    CanonicalHeaderIsFixed(NormalizeHeader(h));
  }

  /** Python's `next((c for c in xs if p(c)), None)`, as an index. */
  function FirstMatch(xs: seq<string>, p: string -> bool): (r: Option<nat>)
    ensures r.Some? ==> r.value < |xs| && p(xs[r.value])
    ensures r.Some? ==> forall j :: 0 <= j < r.value ==> !p(xs[j])
    ensures r.None? ==> forall j :: 0 <= j < |xs| ==> !p(xs[j])
  {
    if xs == [] then None
    else if p(xs[0]) then Some(0)
    else match FirstMatch(xs[1..], p)
      case Some(i) => Some(i + 1)
      case None => None
  }

  /** The count role: a header containing "robo" or "reporte". */
  predicate IsCountHeader(c: string) {
    Contains(c, "robo") || Contains(c, "reporte")
  }

  /** The station role: a header containing "estacion". */
  predicate IsStationHeader(c: string) {
    Contains(c, "estacion")
  }

  /** The header `df.rename` gives a column once the count and station
      columns are known; when both roles fall on one column the later entry
      of the rename dictionary, "estacion", wins. */
  function Rename(h: string, countCol: string, stationCol: string): string {
    if h == stationCol then "estacion"
    else if h == countCol then "robos"
    else h
  }

  /** Which headers the rename turns into "estacion" and "robos", and which
      it leaves alone. */
  lemma RenameOutcome(h: string, countCol: string, stationCol: string)
    ensures Rename(h, countCol, stationCol) == "estacion" <==>
      h == stationCol || (h != countCol && h == "estacion")
    ensures Rename(h, countCol, stationCol) == "robos" <==>
      h != stationCol && (h == countCol || h == "robos")
  {
  }

  lemma RenameKeeps(h: string, countCol: string, stationCol: string, name: string)
    requires name != "estacion" && name != "robos"
    ensures Rename(h, countCol, stationCol) == name <==> h == name && h != countCol && h != stationCol
  {
  }
}
