/** The row scan of GetDefaultGatewayInfo over the text of the ARP cache
    (/proc/net/arp). The text is a parameter (None: the file could not be
    read); net.ParseMAC and net.ParseIP are the parameters parseMac and
    parseIp, which give None where Go reports an error or returns nil. */
module GatewayInfo {
  import opened NetTypes
  import opened GoStrings
  import opened SpaceCollapse

  /** The fields of a row: removeExtraSpaces, then split on single spaces. */
  function RowFields(row: string): seq<string>
  {
    Split(ToBytes(CollapseRuns(row)), ' ')
  }

  /** Go indexes field 3 of the first row that contains ifce without checking
      that it exists: the scan is defined only when that row has at least four
      fields. Rows after it, and rows that do not contain ifce, are not
      constrained. */
  predicate ArpRowsOk(rows: seq<string>, ifce: string)
    decreases |rows|
  {
    |rows| == 0 ||
    if Contains(rows[0], ifce) then |RowFields(rows[0])| >= 4 else ArpRowsOk(rows[1..], ifce)
  }

  /** The result built from a matching row: the MAC of field 3 is checked
      first, then the IP of field 0. */
  function MatchedRow(row: string, ifce: string,
                      parseMac: string -> Option<HardwareAddr>,
                      parseIp: string -> Option<IP>): Result<InterfaceInfo>
    requires |RowFields(row)| >= 4
  {
    var f := RowFields(row);
    match parseMac(f[3])
    case None => Err(MacParseFailed(f[3]))
    case Some(mac) =>
      match parseIp(f[0])
      case None => Err(IpParseFailed(f[0]))
      case Some(ip) => Ok(InterfaceInfo(ifce, mac, ip))
  }

  /** The scan over the rows, in order: the first row containing ifce decides;
      without one the result is the empty record and no error. */
  function ScanArp(rows: seq<string>, ifce: string,
                   parseMac: string -> Option<HardwareAddr>,
                   parseIp: string -> Option<IP>): Result<InterfaceInfo>
    requires ArpRowsOk(rows, ifce)
    decreases |rows|
  {
    if |rows| == 0 then Ok(EmptyInfo)
    else if Contains(rows[0], ifce) then MatchedRow(rows[0], ifce, parseMac, parseIp)
    else ScanArp(rows[1..], ifce, parseMac, parseIp)
  }

  /** GetDefaultGatewayInfo, from the read onwards. */
  method GetDefaultGatewayInfo(arp: Option<string>, ifce: string,
                               parseMac: string -> Option<HardwareAddr>,
                               parseIp: string -> Option<IP>) returns (r: Result<InterfaceInfo>)
    requires arp.Some? ==> ArpRowsOk(Split(arp.value, '\n'), ifce)
    ensures arp.None? ==> r == Err(ReadFailed)
    ensures arp.Some? ==> r == ScanArp(Split(arp.value, '\n'), ifce, parseMac, parseIp)
  {
    if arp.None? {
      return Err(ReadFailed);
    }
    var splitted := Split(arp.value, '\n');
    for k := 0 to |splitted|
      invariant forall j :: 0 <= j < k ==> !Contains(splitted[j], ifce)
    {
      var str := splitted[k];
      if Contains(str, ifce) {
        ArpFirstMatchDecides(splitted, ifce, parseMac, parseIp, k);
        var collapsed := RemoveExtraSpaces(str);
        var splittedBySpace := Split(collapsed, ' ');
        var mac := parseMac(splittedBySpace[3]);
        if mac.None? {
          return Err(MacParseFailed(splittedBySpace[3]));
        }
        var ip := parseIp(splittedBySpace[0]);
        if ip.None? {
          return Err(IpParseFailed(splittedBySpace[0]));
        }
        return Ok(InterfaceInfo(ifce, mac.value, ip.value));
      }
    }
    ArpNoMatchIsEmpty(splitted, ifce, parseMac, parseIp);
    return Ok(EmptyInfo);
  }

  /** The first row (in newline order) that contains ifce decides the result
      by itself; rows before it do not contain ifce and rows after it are
      never looked at. */
  lemma {:induction false} ArpFirstMatchDecides(rows: seq<string>, ifce: string,
                                                parseMac: string -> Option<HardwareAddr>,
                                                parseIp: string -> Option<IP>, j: nat)
    requires ArpRowsOk(rows, ifce)
    requires j < |rows| && Contains(rows[j], ifce)
    requires forall k :: 0 <= k < j ==> !Contains(rows[k], ifce)
    ensures |RowFields(rows[j])| >= 4
    ensures ScanArp(rows, ifce, parseMac, parseIp) == MatchedRow(rows[j], ifce, parseMac, parseIp)
    decreases j
  {
    if j > 0 {
      assert !Contains(rows[0], ifce);
      ArpFirstMatchDecides(rows[1..], ifce, parseMac, parseIp, j - 1);
    }
  }

  /** Without a row that contains ifce the result is the empty record and no
      error, whatever the rows hold. */
  lemma {:induction false} ArpNoMatchIsEmpty(rows: seq<string>, ifce: string,
                                             parseMac: string -> Option<HardwareAddr>,
                                             parseIp: string -> Option<IP>)
    requires forall k :: 0 <= k < |rows| ==> !Contains(rows[k], ifce)
    ensures ArpRowsOk(rows, ifce)
    ensures ScanArp(rows, ifce, parseMac, parseIp) == Ok(EmptyInfo)
    decreases |rows|
  {
    if |rows| > 0 {
      ArpNoMatchIsEmpty(rows[1..], ifce, parseMac, parseIp);
    }
  }

  /** What the scan can return: an error only from the MAC or IP parser, and
      otherwise either the empty record or a record named ifce. */
  lemma {:induction false} ArpScanOutcomes(rows: seq<string>, ifce: string,
                                           parseMac: string -> Option<HardwareAddr>,
                                           parseIp: string -> Option<IP>)
    requires ArpRowsOk(rows, ifce)
    ensures var r := ScanArp(rows, ifce, parseMac, parseIp);
      && (r.Err? ==> r.error.MacParseFailed? || r.error.IpParseFailed?)
      && (r.Ok? ==> r.value == EmptyInfo || r.value.name == ifce)
    decreases |rows|
  {
    if |rows| > 0 && !Contains(rows[0], ifce) {
      ArpScanOutcomes(rows[1..], ifce, parseMac, parseIp);
    }
  }

  /** The MAC is checked before the IP: a bad field 3 is reported even when
      field 0 is bad as well. */
  lemma MacCheckedFirst(row: string, ifce: string,
                        parseMac: string -> Option<HardwareAddr>,
                        parseIp: string -> Option<IP>)
    requires |RowFields(row)| >= 4
    ensures parseMac(RowFields(row)[3]).None? ==>
      MatchedRow(row, ifce, parseMac, parseIp) == Err(MacParseFailed(RowFields(row)[3]))
    ensures parseMac(RowFields(row)[3]).Some? && parseIp(RowFields(row)[0]).None? ==>
      MatchedRow(row, ifce, parseMac, parseIp) == Err(IpParseFailed(RowFields(row)[0]))
  {
  }

  /** Rows after the first match can be anything. */
  lemma LaterRowsIgnored(before: seq<string>, row: string, after1: seq<string>, after2: seq<string>, ifce: string,
                         parseMac: string -> Option<HardwareAddr>,
                         parseIp: string -> Option<IP>)
    requires Contains(row, ifce) && |RowFields(row)| >= 4
    requires forall k :: 0 <= k < |before| ==> !Contains(before[k], ifce)
    ensures ArpRowsOk(before + [row] + after1, ifce) && ArpRowsOk(before + [row] + after2, ifce)
    ensures ScanArp(before + [row] + after1, ifce, parseMac, parseIp) ==
            ScanArp(before + [row] + after2, ifce, parseMac, parseIp)
  {
    RowsOkUpToMatch(before, row, after1, ifce);
    RowsOkUpToMatch(before, row, after2, ifce);
    ArpFirstMatchDecides(before + [row] + after1, ifce, parseMac, parseIp, |before|);
    ArpFirstMatchDecides(before + [row] + after2, ifce, parseMac, parseIp, |before|);
  }

  lemma {:induction false} RowsOkUpToMatch(before: seq<string>, row: string, after: seq<string>, ifce: string)
    requires Contains(row, ifce) && |RowFields(row)| >= 4
    requires forall k :: 0 <= k < |before| ==> !Contains(before[k], ifce)
    ensures ArpRowsOk(before + [row] + after, ifce)
    decreases |before|
  {
    if |before| > 0 {
      assert (before + [row] + after)[1..] == before[1..] + [row] + after;
      RowsOkUpToMatch(before[1..], row, after, ifce);
    } else {
      assert (before + [row] + after)[0] == row;
    }
  }

  /** On ASCII text, irregular spacing between the columns does not change the
      fields: a row and its collapsed form split alike. */
  lemma RowFieldsIgnoreSpacing(row: string)
    requires IsAscii(row)
    ensures RowFields(ToBytes(CollapseRuns(row))) == RowFields(row)
  {
    AsciiCollapse(row);
    AsciiCollapse(CollapseRuns(row));
    CollapseIdempotent(row);
  }

  /** A row written as words separated by runs of spaces: gaps[i] >= 1 spaces
      stand between words[i] and words[i + 1]. */
  function SpacedRow(words: seq<string>, gaps: seq<nat>): string
    requires |words| >= 1 && |gaps| == |words| - 1
    decreases |words|
  {
    if |words| == 1 then words[0]
    else SpacedRow(words[..|words| - 1], gaps[..|gaps| - 1]) + Spaces(gaps[|gaps| - 1]) + words[|words| - 1]
  }

  predicate WellSpaced(words: seq<string>, gaps: seq<nat>)
  {
    && |words| >= 1 && |gaps| == |words| - 1
    && (forall i :: 0 <= i < |words| ==> |words[i]| > 0 && ' ' !in words[i])
    && (forall i :: 0 <= i < |gaps| ==> gaps[i] >= 1)
  }

  /** Collapsing the runs leaves the words joined by single spaces. */
  lemma {:induction false} SpacedRowCollapses(words: seq<string>, gaps: seq<nat>)
    requires WellSpaced(words, gaps)
    ensures var row := SpacedRow(words, gaps);
      |row| > 0 && row[|row| - 1] != ' ' && CollapseRuns(row) == Join(words, ' ')
    decreases |words|
  {
    var w := words[|words| - 1];
    if |words| == 1 {
      assert NoDoubleSpace(w) by {
        forall i | 0 <= i < |w| - 1 ensures w[i] != ' ' { assert w[i] in w; }
      }
      CollapseFixedPoint(w);
      assert w[|w| - 1] in w;
    } else {
      var ws, gs := words[..|words| - 1], gaps[..|gaps| - 1];
      SpacedRowCollapses(ws, gs);
      CollapseGapThenWord(SpacedRow(ws, gs), gaps[|gaps| - 1], w);
      JoinSnoc(ws, w, ' ');
      assert words == ws + [w];
      assert w[|w| - 1] in w;
    }
  }

  /** Irregular spacing between the columns does not change the fields: a
      row of ASCII text whose columns are separated by runs of spaces has the
      columns themselves as its fields, as with single spaces. */
  lemma IrregularSpacingSameFields(words: seq<string>, gaps: seq<nat>)
    requires WellSpaced(words, gaps)
    requires forall i :: 0 <= i < |words| ==> IsAscii(words[i])
    ensures RowFields(SpacedRow(words, gaps)) == words
    ensures RowFields(Join(words, ' ')) == words
  {
    var row, line := SpacedRow(words, gaps), Join(words, ' ');
    SpacedRowAscii(words, gaps);
    SpacedRowCollapses(words, gaps);
    AsciiCollapse(row);
    CollapseFixedPoint(line);
    AsciiCollapse(line);
    JoinSplit(words, ' ');
  }

  /** A matching ARP row whose columns are separated by runs of spaces: the
      MAC comes from the fourth column and the IP from the first, whatever
      the widths of the gaps. */
  lemma SpacedArpRowMatch(words: seq<string>, gaps: seq<nat>, ifce: string,
                          parseMac: string -> Option<HardwareAddr>,
                          parseIp: string -> Option<IP>)
    requires WellSpaced(words, gaps) && |words| >= 4
    requires forall i :: 0 <= i < |words| ==> IsAscii(words[i])
    ensures |RowFields(SpacedRow(words, gaps))| >= 4
    ensures MatchedRow(SpacedRow(words, gaps), ifce, parseMac, parseIp) ==
      if parseMac(words[3]).None? then Err(MacParseFailed(words[3]))
      else if parseIp(words[0]).None? then Err(IpParseFailed(words[0]))
      else Ok(InterfaceInfo(ifce, parseMac(words[3]).value, parseIp(words[0]).value))
  {
    IrregularSpacingSameFields(words, gaps);
  }

  lemma {:induction false} SpacedRowAscii(words: seq<string>, gaps: seq<nat>)
    requires |words| >= 1 && |gaps| == |words| - 1
    requires forall i :: 0 <= i < |words| ==> IsAscii(words[i])
    ensures IsAscii(SpacedRow(words, gaps))
    decreases |words|
  {
    if |words| > 1 {
      var ws, gs := words[..|words| - 1], gaps[..|gaps| - 1];
      SpacedRowAscii(ws, gs);
      var g := Spaces(gaps[|gaps| - 1]);
      assert IsAscii(g) by {
        forall c | c in g ensures c as int < 0x80 { }
      }
      AsciiConcat(SpacedRow(ws, gs), g);
      AsciiConcat(SpacedRow(ws, gs) + g, words[|words| - 1]);
    }
  }
}
