/** The line scan of GetDefaultGatewayDevice over the output of `ip route`.
    The output is a parameter (None: the command failed). A line counts when
    it starts with "default"; its device is the token right after the first
    token "dev", tokens being the pieces between single spaces. */
module DefaultRoute {
  import opened NetTypes
  import opened GoStrings

  /** Index of the first token that is exactly "dev"; |tokens| when none is. */
  function DevIndex(tokens: seq<string>): (k: nat)
    ensures k <= |tokens|
    ensures forall j :: 0 <= j < k ==> tokens[j] != "dev"
    ensures k < |tokens| ==> tokens[k] == "dev"
    decreases |tokens|
  {
    if |tokens| == 0 || tokens[0] == "dev" then 0
    else 1 + DevIndex(tokens[1..])
  }

  /** A line that decides the result: it starts with "default" (case-sensitive,
      no leading blanks) and has a token "dev". */
  predicate Qualifies(line: string)
  {
    HasPrefix(line, "default") && DevIndex(Split(line, ' ')) < |Split(line, ' ')|
  }

  /** Go indexes the token after "dev" without a bounds check: the scan is
      defined only when, in the first qualifying line, a token follows the
      first "dev". Lines after it are not constrained. */
  predicate RouteLinesOk(lines: seq<string>)
    decreases |lines|
  {
    |lines| == 0 ||
    if Qualifies(lines[0]) then DevIndex(Split(lines[0], ' ')) + 1 < |Split(lines[0], ' ')|
    else RouteLinesOk(lines[1..])
  }

  /** The token after the first "dev" of a qualifying line. */
  function DeviceOf(line: string): string
    requires Qualifies(line) && DevIndex(Split(line, ' ')) + 1 < |Split(line, ' ')|
  {
    Split(line, ' ')[DevIndex(Split(line, ' ')) + 1]
  }

  /** The scan over the lines, in order: the first qualifying line decides;
      without one the device is "". */
  function DefaultDevice(lines: seq<string>): string
    requires RouteLinesOk(lines)
    decreases |lines|
  {
    if |lines| == 0 then ""
    else if Qualifies(lines[0]) then DeviceOf(lines[0])
    else DefaultDevice(lines[1..])
  }

  /** GetDefaultGatewayDevice, from the command's output onwards. */
  method GetDefaultGatewayDevice(output: Option<string>) returns (dev: string)
    requires output.Some? ==> RouteLinesOk(Split(output.value, '\n'))
    ensures output.None? ==> dev == ""
    ensures output.Some? ==> dev == DefaultDevice(Split(output.value, '\n'))
  {
    if output.None? {
      return "";
    }
    var lines := Split(output.value, '\n');
    for k := 0 to |lines|
      invariant forall j :: 0 <= j < k ==> !Qualifies(lines[j])
    {
      var line := lines[k];
      if HasPrefix(line, "default") {
        var splitted := Split(line, ' ');
        for i := 0 to |splitted|
          invariant forall j :: 0 <= j < i ==> splitted[j] != "dev"
        {
          if splitted[i] == "dev" {
            FirstQualifyingLineDecides(lines, k);
            return splitted[i + 1];
          }
        }
      }
    }
    NoQualifyingLine(lines);
    return "";
  }

  /** The first qualifying line decides the device by itself: earlier lines
      either do not start with "default" or have no "dev" token, and later
      lines are never looked at. */
  lemma {:induction false} FirstQualifyingLineDecides(lines: seq<string>, j: nat)
    requires RouteLinesOk(lines)
    requires j < |lines| && Qualifies(lines[j])
    requires forall k :: 0 <= k < j ==> !Qualifies(lines[k])
    ensures DevIndex(Split(lines[j], ' ')) + 1 < |Split(lines[j], ' ')|
    ensures DefaultDevice(lines) == DeviceOf(lines[j])
    decreases j
  {
    if j > 0 {
      assert !Qualifies(lines[0]);
      FirstQualifyingLineDecides(lines[1..], j - 1);
    }
  }

  /** Without a qualifying line the device is "", not an error. */
  lemma {:induction false} NoQualifyingLine(lines: seq<string>)
    requires forall k :: 0 <= k < |lines| ==> !Qualifies(lines[k])
    ensures RouteLinesOk(lines)
    ensures DefaultDevice(lines) == ""
    decreases |lines|
  {
    if |lines| > 0 {
      NoQualifyingLine(lines[1..]);
    }
  }

  /** A line that does not qualify (not a default route, or a default route
      without "dev") can be removed from anywhere without changing the result. */
  lemma {:induction false} UnqualifiedLineSkipped(before: seq<string>, line: string, after: seq<string>)
    requires !Qualifies(line)
    ensures RouteLinesOk(before + [line] + after) <==> RouteLinesOk(before + after)
    ensures RouteLinesOk(before + after) ==>
      DefaultDevice(before + [line] + after) == DefaultDevice(before + after)
    decreases |before|
  {
    if |before| == 0 {
      assert before + [line] + after == [line] + after;
      assert ([line] + after)[1..] == after;
      assert before + after == after;
    } else {
      assert (before + [line] + after)[1..] == before[1..] + [line] + after;
      assert (before + after)[1..] == before[1..] + after;
      assert (before + [line] + after)[0] == before[0] == (before + after)[0];
      UnqualifiedLineSkipped(before[1..], line, after);
    }
  }

  /** A line written out as its space-separated tokens: it splits into them,
      and whether it counts and which device it names follow from them. */
  lemma RouteLine(line: string, tokens: seq<string>)
    requires |tokens| >= 1 && forall i :: 0 <= i < |tokens| ==> ' ' !in tokens[i]
    requires Join(tokens, ' ') == line
    ensures Split(line, ' ') == tokens
    ensures Qualifies(line) <==> HasPrefix(line, "default") && DevIndex(tokens) < |tokens|
    ensures Qualifies(line) && DevIndex(tokens) + 1 < |tokens| ==>
      DeviceOf(line) == tokens[DevIndex(tokens) + 1]
  {
    JoinSplit(tokens, ' ');
  }

  /** The lines of a route table written out as its newline-separated pieces. */
  lemma LinesOf(text: string, lines: seq<string>)
    requires |lines| >= 1 && forall i :: 0 <= i < |lines| ==> '\n' !in lines[i]
    requires Join(lines, '\n') == text
    ensures Split(text, '\n') == lines
  {
    JoinSplit(lines, '\n');
  }

  /** A text without newlines is one line. */
  lemma SingleLine(line: string)
    requires '\n' !in line
    ensures Split(line, '\n') == [line]
  {
    LinesOf(line, [line]);
  }

  /** "default via 10.0.0.1 dev eth3" qualifies and names eth3. */
  lemma ViaDevLineDecides(line: string)
    requires line == "default via 10.0.0.1 dev eth3"
    ensures Qualifies(line) && DevIndex(Split(line, ' ')) + 1 < |Split(line, ' ')|
    ensures DeviceOf(line) == "eth3"
  {
    var tokens := ["default", "via", "10.0.0.1", "dev", "eth3"];
    assert Join(tokens[3..], ' ') == "dev eth3";
    assert Join(tokens[1..], ' ') == "via 10.0.0.1 dev eth3";
    assert Join(tokens, ' ') == line;
    RouteLine(line, tokens);
    assert DevIndex(tokens) == 3;
    assert HasPrefix(line, "default");
  }

  /** A route table whose one line is "default via 10.0.0.1 dev eth3" names
      the device eth3. */
  lemma ExampleDefaultRoute(output: string)
    requires output == "default via 10.0.0.1 dev eth3"
    ensures RouteLinesOk(Split(output, '\n'))
    ensures DefaultDevice(Split(output, '\n')) == "eth3"
  {
    ViaDevLineDecides(output);
    SingleLine(output);
  }

  /** A route table without a default route gives "", not an error. */
  lemma ExampleNoDefaultRoute(output: string)
    requires output == "10.0.0.0/24 dev eth0 scope link"
    ensures RouteLinesOk(Split(output, '\n'))
    ensures DefaultDevice(Split(output, '\n')) == ""
  {
    assert output[..7][0] != "default"[0];
    assert !Qualifies(output);
    SingleLine(output);
    NoQualifyingLine([output]);
  }

  /** A doubled space after "dev" makes the empty token the device. */
  lemma ExampleDoubledSpace(output: string)
    requires output == "default dev  eth0"
    ensures RouteLinesOk(Split(output, '\n'))
    ensures DefaultDevice(Split(output, '\n')) == ""
  {
    var tokens := ["default", "dev", "", "eth0"];
    assert Join(tokens[2..], ' ') == " eth0";
    assert Join(tokens[1..], ' ') == "dev  eth0";
    assert Join(tokens, ' ') == output;
    RouteLine(output, tokens);
    assert DevIndex(tokens) == 1;
    assert HasPrefix(output, "default");
    SingleLine(output);
  }

  /** The prefix test is case-sensitive and allows no leading blank. */
  lemma ExamplePrefixIsExact(capital: string, indented: string)
    requires capital == "Default dev eth0" && indented == " default dev eth0"
    ensures !Qualifies(capital) && !Qualifies(indented)
  {
    assert capital[..7][0] != "default"[0];
    assert indented[..7][0] != "default"[0];
  }

  /** "devx" is not the token "dev", so this default route has no device. */
  lemma DevxLineSkipped(line: string)
    requires line == "default via 10.0.0.1 devx eth2"
    ensures !Qualifies(line)
  {
    var tokens := ["default", "via", "10.0.0.1", "devx", "eth2"];
    assert Join(tokens[3..], ' ') == "devx eth2";
    assert Join(tokens[1..], ' ') == "via 10.0.0.1 devx eth2";
    assert Join(tokens, ' ') == line;
    RouteLine(line, tokens);
    assert DevIndex(tokens) == 5;
  }

  /** "default dev eth3" qualifies and names eth3. */
  lemma DevLineDecides(line: string)
    requires line == "default dev eth3"
    ensures Qualifies(line) && DevIndex(Split(line, ' ')) + 1 < |Split(line, ' ')|
    ensures DeviceOf(line) == "eth3"
  {
    var tokens := ["default", "dev", "eth3"];
    assert Join(tokens[1..], ' ') == "dev eth3";
    assert Join(tokens, ' ') == line;
    RouteLine(line, tokens);
    assert DevIndex(tokens) == 1;
    assert HasPrefix(line, "default");
  }

  /** A default route without a "dev" token is passed over, and "devx" is not
      the token "dev": the scan goes on to the next line. */
  lemma ExampleSkipsLineWithoutDev(output: string, first: string, second: string)
    requires first == "default via 10.0.0.1 devx eth2" && second == "default dev eth3"
    requires output == first + "\n" + second
    ensures RouteLinesOk(Split(output, '\n'))
    ensures DefaultDevice(Split(output, '\n')) == "eth3"
  {
    assert Join([first, second], '\n') == output;
    LinesOf(output, [first, second]);
    DevxLineSkipped(first);
    DevLineDecides(second);
    assert [first, second][1..] == [second];
  }
}
