/** Classification of a Dutch court name into a court type
    (`extract_court_type`): a case-insensitive substring cascade whose
    order is the disambiguation policy. */
module Courts {
  import opened Text

  datatype CourtType = HR | HOF | RB | RVS | CRVB | CBB | RVR | OTHER {
    /** The code string the scraper stores in the court_type column. */
    function Code(): string {
      match this
      case HR => "HR"
      case HOF => "HOF"
      case RB => "RB"
      case RVS => "RVS"
      case CRVB => "CRVB"
      case CBB => "CBB"
      case RVR => "RVR"
      case OTHER => "OTHER"
    }
  }

  const CourtCodes: set<string> := {"HR", "HOF", "RB", "RVS", "CRVB", "CBB", "RVR", "OTHER"}

  /** The cascade of `extract_court_type` as an ordered table of
      (lower-case needle, court type) pairs. */
  const Cascade: seq<(string, CourtType)> := [
    ("hoge raad", HR),
    ("gerechtshof", HOF),
    ("rechtbank", RB),
    ("raad van state", RVS),
    ("centrale raad van beroep", CRVB),
    ("college van beroep", CBB),
    ("raad voor de rechtspraak", RVR)
  ]

  /** Reference reading of an ordered table: the type paired with the
      first needle the text contains, OTHER when it contains none. */
  function FirstMatch(text: string, table: seq<(string, CourtType)>): CourtType {
    if table == [] then OTHER
    else if Contains(text, table[0].0) then table[0].1
    else FirstMatch(text, table[1..])
  }

  /** The if/elif chain of `extract_court_type`; it agrees with the
      table reading of the lower-cased name. */
  function ExtractCourtType(courtName: string): (r: CourtType)
    ensures r == FirstMatch(Lower(courtName), Cascade)
  {
    var courtLower := Lower(courtName);
    CascadeInOrder(courtLower);
    if Contains(courtLower, "hoge raad") then HR
    else if Contains(courtLower, "gerechtshof") then HOF
    else if Contains(courtLower, "rechtbank") then RB
    else if Contains(courtLower, "raad van state") then RVS
    else if Contains(courtLower, "centrale raad van beroep") then CRVB
    else if Contains(courtLower, "college van beroep") then CBB
    else if Contains(courtLower, "raad voor de rechtspraak") then RVR
    else OTHER
  }

  // ---------------------------------------------------------------- the table reading

  /** The table reading unfolded entry by entry. */
  lemma CascadeInOrder(text: string)
    ensures FirstMatch(text, Cascade) ==
      if Contains(text, "hoge raad") then HR
      else if Contains(text, "gerechtshof") then HOF
      else if Contains(text, "rechtbank") then RB
      else if Contains(text, "raad van state") then RVS
      else if Contains(text, "centrale raad van beroep") then CRVB
      else if Contains(text, "college van beroep") then CBB
      else if Contains(text, "raad voor de rechtspraak") then RVR
      else OTHER
  {
    var t1 := Cascade[1..];
    var t2 := t1[1..];
    var t3 := t2[1..];
    var t4 := t3[1..];
    var t5 := t4[1..];
    var t6 := t5[1..];
    var t7 := t6[1..];
    assert t7 == [];
    assert FirstMatch(text, t6) == if Contains(text, "raad voor de rechtspraak") then RVR else OTHER;
    assert FirstMatch(text, t5) == if Contains(text, "college van beroep") then CBB else FirstMatch(text, t6);
    assert FirstMatch(text, t4) == if Contains(text, "centrale raad van beroep") then CRVB else FirstMatch(text, t5);
    assert FirstMatch(text, t3) == if Contains(text, "raad van state") then RVS else FirstMatch(text, t4);
    assert FirstMatch(text, t2) == if Contains(text, "rechtbank") then RB else FirstMatch(text, t3);
    assert FirstMatch(text, t1) == if Contains(text, "gerechtshof") then HOF else FirstMatch(text, t2);
  }

  /** The k-th entry wins exactly when its needle is the first one found. */
  lemma {:induction false} FirstMatchAt(text: string, table: seq<(string, CourtType)>, k: nat)
    requires k < |table| && Contains(text, table[k].0)
    requires forall j :: 0 <= j < k ==> !Contains(text, table[j].0)
    ensures FirstMatch(text, table) == table[k].1
  {
    if k > 0 {
      FirstMatchAt(text, table[1..], k - 1);
    }
  }

  /** With OTHER not in the table, OTHER comes out exactly when no needle
      is found, and any other answer names the first needle found. */
  lemma {:induction false} FirstMatchCases(text: string, table: seq<(string, CourtType)>)
    requires forall j :: 0 <= j < |table| ==> table[j].1 != OTHER
    ensures FirstMatch(text, table) == OTHER <==> forall j :: 0 <= j < |table| ==> !Contains(text, table[j].0)
    ensures FirstMatch(text, table) != OTHER ==>
              exists k :: 0 <= k < |table| && Contains(text, table[k].0) && table[k].1 == FirstMatch(text, table)
                && forall j :: 0 <= j < k ==> !Contains(text, table[j].0)
  {
    if table != [] && !Contains(text, table[0].0) {
      FirstMatchCases(text, table[1..]);
      if FirstMatch(text, table) != OTHER {
        var k :| 0 <= k < |table[1..]| && Contains(text, table[1..][k].0) && table[1..][k].1 == FirstMatch(text, table)
                && forall j :: 0 <= j < k ==> !Contains(text, table[1..][j].0);
        assert table[k + 1] == table[1..][k];
        assert forall j :: 1 <= j < k + 1 ==> table[j] == table[1..][j - 1];
      }
    }
  }

  // ---------------------------------------------------------------- extract_court_type

  /** The result is always one of the eight codes and never empty. */
  lemma CourtCodeInVocabulary(courtName: string)
    ensures ExtractCourtType(courtName).Code() in CourtCodes
    ensures ExtractCourtType(courtName).Code() != ""
  {
  }

  /** The k-th needle of the cascade decides whenever it is the first one
      the lower-cased name contains. */
  lemma CourtTypeByPriority(courtName: string, k: nat)
    requires k < |Cascade| && Contains(Lower(courtName), Cascade[k].0)
    requires forall j :: 0 <= j < k ==> !Contains(Lower(courtName), Cascade[j].0)
    ensures ExtractCourtType(courtName) == Cascade[k].1
  {
    FirstMatchAt(Lower(courtName), Cascade, k);
  }

  /** OTHER exactly when none of the seven needles occurs, and otherwise
      the type of the earliest needle that occurs. */
  lemma CourtTypeOtherIffNoNeedle(courtName: string)
    ensures ExtractCourtType(courtName) == OTHER <==>
              forall j :: 0 <= j < |Cascade| ==> !Contains(Lower(courtName), Cascade[j].0)
    ensures ExtractCourtType(courtName) != OTHER ==>
              exists k :: 0 <= k < |Cascade| && Contains(Lower(courtName), Cascade[k].0)
                && Cascade[k].1 == ExtractCourtType(courtName)
                && forall j :: 0 <= j < k ==> !Contains(Lower(courtName), Cascade[j].0)
  {
    FirstMatchCases(Lower(courtName), Cascade);
  }

  /** "hoge raad" wins whatever else the name contains. */
  lemma HogeRaadAlwaysWins(courtName: string)
    requires Contains(Lower(courtName), "hoge raad")
    ensures ExtractCourtType(courtName) == HR
  {
  }

  /** A name with both "gerechtshof" and "rechtbank" (and no "hoge raad")
      is a court of appeal, not a district court. */
  lemma GerechtshofBeforeRechtbank(courtName: string)
    requires Contains(Lower(courtName), "gerechtshof") && Contains(Lower(courtName), "rechtbank")
    requires !Contains(Lower(courtName), "hoge raad")
    ensures ExtractCourtType(courtName) == HOF
  {
  }

  /** Matching ignores case: classifying the lower-cased name gives the
      same type. */
  lemma CourtTypeIgnoresCase(courtName: string)
    ensures ExtractCourtType(Lower(courtName)) == ExtractCourtType(courtName)
  {
    LowerIdempotent(courtName);
  }

  /** The default court name "Unknown" is classified OTHER. */
  lemma UnknownCourtIsOther()
    ensures ExtractCourtType("Unknown") == OTHER
  {
    var u := Lower("Unknown");
    assert u == "unknown";
    forall j | 0 <= j < |Cascade|
      ensures !Contains(u, Cascade[j].0)
    {
      NotContainsByChar(u, Cascade[j].0, 'r');
    }
  }

  /** The order hides no entry: every one of the eight types is the
      answer for some court name. */
  lemma EveryCourtTypeReachable(t: CourtType)
    ensures exists courtName :: ExtractCourtType(courtName) == t
  {
    var w := ReachingName(t);
    ReachingNameClassified(t);
    assert ExtractCourtType(w) == t;
  }

  /** A court name of each type: its needle, or "Unknown" for OTHER. */
  function ReachingName(t: CourtType): string {
    match t
    case HR => "hoge raad"
    case HOF => "gerechtshof"
    case RB => "rechtbank"
    case RVS => "raad van state"
    case CRVB => "centrale raad van beroep"
    case CBB => "college van beroep"
    case RVR => "raad voor de rechtspraak"
    case OTHER => "Unknown"
  }

  lemma ReachingNameClassified(t: CourtType)
    ensures ExtractCourtType(ReachingName(t)) == t
  {
    match t
    case HR => Reach("hoge raad", 0, []);
    case HOF => Reach("gerechtshof", 1, [' ']);
    case RB => Reach("rechtbank", 2, [' ', 'o']);
    case RVS => Reach("raad van state", 3, ['h', 'h', 'h']);
    case CRVB => ReachingCentraleRaad();
    case CBB => ReachingCollege();
    case RVR => ReachingRaadVoorDeRechtspraak();
    case OTHER => UnknownCourtIsOther();
  }

  lemma ReachingCentraleRaad()
    ensures ExtractCourtType("centrale raad van beroep") == CRVB
  {
    Reach("centrale raad van beroep", 4, ['h', 'h', 'h', 's']);
  }

  lemma ReachingCollege()
    ensures ExtractCourtType("college van beroep") == CBB
  {
    Reach("college van beroep", 5, ['h', 'h', 'h', 's', 't']);
  }

  lemma ReachingRaadVoorDeRechtspraak()
    ensures ExtractCourtType("raad voor de rechtspraak") == RVR
  {
    Reach("raad voor de rechtspraak", 6, ['g', 'g', 'b', 'n', 'n', 'n']);
  }

  /** The k-th needle itself is classified by the k-th entry, given for
      each earlier needle a character it has and the k-th needle lacks. */
  lemma Reach(needle: string, k: nat, missing: seq<char>)
    requires k < |Cascade| && needle == Cascade[k].0 && |missing| == k
    requires forall i :: 0 <= i < |needle| ==> 'a' <= needle[i] <= 'z' || needle[i] == ' '
    requires forall j :: 0 <= j < k ==> missing[j] in Cascade[j].0 && missing[j] !in needle
    ensures ExtractCourtType(needle) == Cascade[k].1
  {
    LowerOfLower(needle);
    assert InfixAt(needle, needle, 0);
    assert Contains(needle, Cascade[k].0);
    forall j | 0 <= j < k
      ensures !Contains(needle, Cascade[j].0)
    {
      NotContainsByChar(needle, Cascade[j].0, missing[j]);
    }
    FirstMatchAt(needle, Cascade, k);
  }
}
