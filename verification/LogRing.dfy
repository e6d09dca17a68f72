/** The log handler that keeps the last `maxBytes` of output. */
module LogRing {
  import opened Options
  import opened Strings

  /** Length of one character in UTF-8. */
  function CharBytes(c: char): nat {
    if c < '\U{80}' then 1 else if c < '\U{800}' then 2 else if c < '\U{10000}' then 3 else 4
  }

  function Bytes(line: string): nat {
    if line == "" then 0 else CharBytes(line[0]) + Bytes(line[1..])
  }

  /** What a list of lines costs: each line's bytes plus its newline. */
  function Cost(lines: seq<string>): nat {
    if lines == [] then 0 else Bytes(lines[0]) + 1 + Cost(lines[1..])
  }

  /** `kept` is the longest suffix of `history` that costs at most `cap`; with a negative cap, nothing. */
  ghost predicate IsLongestFittingSuffix(kept: seq<string>, history: seq<string>, cap: int) {
    exists k :: 0 <= k <= |history| && kept == history[k..]
                && (kept == [] || Cost(kept) <= cap)
                && (forall j :: 0 <= j < k ==> Cost(history[j..]) > cap)
  }

  /** Dropping oldest lines until the rest fits. */
  function Trim(lines: seq<string>, cap: int): seq<string> {
    if lines == [] || Cost(lines) <= cap then lines else Trim(lines[1..], cap)
  }

  lemma {:induction false} TrimIsLongest(lines: seq<string>, cap: int)
    ensures IsLongestFittingSuffix(Trim(lines, cap), lines, cap)
  {
    if lines == [] || Cost(lines) <= cap {
      assert lines[0..] == lines;
    } else {
      TrimIsLongest(lines[1..], cap);
      var k :| 0 <= k <= |lines[1..]| && Trim(lines, cap) == lines[1..][k..]
               && (Trim(lines, cap) == [] || Cost(Trim(lines, cap)) <= cap)
               && (forall j :: 0 <= j < k ==> Cost(lines[1..][j..]) > cap);
      assert lines[1..][k..] == lines[k + 1..];
      forall j | 0 <= j < k + 1
        ensures Cost(lines[j..]) > cap
      {
        if j == 0 {
          assert lines[0..] == lines;
        } else {
          assert lines[1..][j - 1..] == lines[j..];
        }
      }
    }
  }

  lemma {:induction false} CostSnoc(lines: seq<string>, line: string)
    ensures Cost(lines + [line]) == Cost(lines) + Bytes(line) + 1
  {
    if lines == [] {
      assert [] + [line] == [line];
    } else {
      assert (lines + [line])[1..] == lines[1..] + [line];
      CostSnoc(lines[1..], line);
    }
  }

  /** Trimming as lines arrive keeps what trimming the whole history would keep, oversized lines
      included. */
  lemma {:induction false} IncrementalTrim(history: seq<string>, line: string, cap: int)
    ensures Trim(Trim(history, cap) + [line], cap) == Trim(history + [line], cap)
  {
    if history != [] && Cost(history) > cap {
      CostSnoc(history, line);
      assert (history + [line])[1..] == history[1..] + [line];
      IncrementalTrim(history[1..], line, cap);
    }
  }

  lemma {:induction false} BytesJoin(a: string, b: string)
    ensures Bytes(a + b) == Bytes(a) + Bytes(b)
  {
    if a == "" {
      assert a + b == b;
    } else {
      assert (a + b)[1..] == a[1..] + b;
      BytesJoin(a[1..], b);
    }
  }

  lemma {:induction false} JoinedBytes(lines: seq<string>)
    requires lines != []
    ensures Bytes(Join(lines, '\n')) == Cost(lines) - 1
  {
    if |lines| > 1 {
      JoinedBytes(lines[1..]);
      BytesJoin(lines[0] + ['\n'], Join(lines[1..], '\n'));
      BytesJoin(lines[0], ['\n']);
    }
  }

  class LogTailHandler {
    const maxBytes: int
    var lines: seq<string>
    var size: int
    ghost var history: seq<string>

    ghost predicate Valid()
      reads this
    {
      size == Cost(lines) && lines == Trim(history, maxBytes)
    }

    constructor (maxBytes: int)
      ensures Valid() && history == [] && this.maxBytes == maxBytes
    {
      this.maxBytes, this.lines, this.size, this.history := maxBytes, [], 0, [];
    }

    /** Appends the formatted record and drops oldest lines past the cap; a record that cannot be
        formatted (`None`) changes nothing. */
    method Emit(formatted: Option<string>)
      requires Valid()
      modifies this
      ensures Valid()
      ensures history == old(history) + (if formatted.Some? then [formatted.value] else [])
      ensures IsLongestFittingSuffix(lines, history, maxBytes)
    {
      if formatted.None? {
        TrimIsLongest(history, maxBytes);
        assert history == old(history) + [];
        return;
      }
      CostSnoc(lines, formatted.value);
      IncrementalTrim(history, formatted.value, maxBytes);
      history := history + [formatted.value];
      lines := lines + [formatted.value];
      size := size + Bytes(formatted.value) + 1;
      while size > maxBytes && lines != []
        invariant history == old(history) + [formatted.value] && size == Cost(lines)
        invariant Trim(lines, maxBytes) == Trim(history, maxBytes)
        decreases |lines|
      {
        var dropped := lines[0];
        lines := lines[1..];
        size := size - (Bytes(dropped) + 1);
      }
      TrimIsLongest(history, maxBytes);
    }

    /** The captured tail; shorter than the cap whenever there is one. */
    method Tail() returns (tail: Option<string>)
      requires Valid()
      ensures tail.None? <==> lines == []
      ensures tail.Some? ==> tail.value == Join(lines, '\n') && Bytes(tail.value) < maxBytes
    {
      if lines == [] {
        return None;
      }
      tail := Some(Join(lines, '\n'));
      JoinedBytes(lines);
      TrimIsLongest(history, maxBytes);
    }
  }

  // ---------------------------------------------------------------- what a byte count means

  function Code(c: char): nat {
    c as int
  }

  /** The UTF-8 form of a character: a lead byte that tells the length, then six bits a byte. */
  function Utf8(c: char): (bytes: seq<int>)
    ensures 1 <= |bytes| <= 4
  {
    var n := Code(c);
    if n < 0x80 then [n]
    else if n < 0x800 then [0xC0 + n / 0x40, 0x80 + n % 0x40]
    else if n < 0x1_0000 then [0xE0 + n / 0x1000, 0x80 + n / 0x40 % 0x40, 0x80 + n % 0x40]
    else [0xF0 + n / 0x4_0000, 0x80 + n / 0x1000 % 0x40, 0x80 + n / 0x40 % 0x40, 0x80 + n % 0x40]
  }

  function LengthOfLead(lead: int): nat {
    if lead < 0x80 then 1 else if 0xC0 <= lead < 0xE0 then 2 else if 0xE0 <= lead < 0xF0 then 3
    else if 0xF0 <= lead < 0xF8 then 4 else 0
  }

  /** The bytes of a character are its UTF-8 bytes: as many as their lead byte says, each below 256. */
  lemma CharBytesAreUtf8(c: char)
    ensures |Utf8(c)| == CharBytes(c) == LengthOfLead(Utf8(c)[0])
    ensures forall i :: 0 <= i < |Utf8(c)| ==> Utf8(c)[i] < 256
    ensures forall i :: 0 < i < |Utf8(c)| ==> 0x80 <= Utf8(c)[i] < 0xC0
  {
    assert Code(c) < 0x11_0000;
  }

  /** Reads such a form back. */
  function CodeOf(bytes: seq<int>): int
    requires 1 <= |bytes| <= 4
  {
    match |bytes|
    case 1 => bytes[0]
    case 2 => (bytes[0] - 0xC0) * 0x40 + (bytes[1] - 0x80)
    case 3 => (bytes[0] - 0xE0) * 0x1000 + (bytes[1] - 0x80) * 0x40 + (bytes[2] - 0x80)
    case _ => (bytes[0] - 0xF0) * 0x4_0000 + (bytes[1] - 0x80) * 0x1000 + (bytes[2] - 0x80) * 0x40 + (bytes[3] - 0x80)
  }

  /** The form loses nothing. */
  lemma Utf8ReadsBack(c: char)
    ensures CodeOf(Utf8(c)) == Code(c)
  {
    var n := Code(c);
    assert n / 0x40 / 0x40 == n / 0x1000 && n / 0x1000 / 0x40 == n / 0x4_0000;
  }
}
