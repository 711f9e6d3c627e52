/** The boot environment: u-boot/tools/makeenv.c makes a block of it from text lines, and
  * u-boot/tools/readenv.c lists the lines again or looks one of them up. */
module Environment {
  import opened Crc32

  type Byte = bv8
  type Text = seq<Byte>

  const NUL: Byte := 0
  const NEWLINE: Byte := 0x0a
  const EQUALS: Byte := 0x3d

  const MAX_LINE: nat := 1024

  datatype Option<T> = None | Some(value: T)

  // ---------- Lines ----------

  /** Where c first occurs, or the length if it does not. */
  function IndexOf(s: Text, c: Byte): (n: nat)
    ensures n <= |s|
    ensures n < |s| ==> s[n] == c
    ensures c !in s[..n]
    decreases |s|
  {
    if s == [] || s[0] == c then 0
    else
      var n := IndexOf(s[1..], c);
      assert s[..n + 1] == [s[0]] + s[1..][..n];
      n + 1
  }

  lemma {:induction false} IndexIs(s: Text, c: Byte, n: nat)
    requires n <= |s| && c !in s[..n] && (n < |s| ==> s[n] == c)
    ensures IndexOf(s, c) == n
    decreases |s|
  {
    if n > 0 {
      assert s[0] == s[..n][0];
      assert s[1..][..n - 1] == s[..n][1..];
      IndexIs(s[1..], c, n - 1);
    }
  }

  /** The lines of a text; the last one may lack its newline. */
  function Lines(text: Text): (lines: seq<Text>)
    decreases |text|
  {
    if text == [] then []
    else
      var n := IndexOf(text, NEWLINE);
      [text[..n]] + Lines(if n == |text| then [] else text[n + 1..])
  }

  /** Every line followed by the given character. */
  function Ended(lines: seq<Text>, c: Byte): Text {
    if lines == [] then [] else lines[0] + [c] + Ended(lines[1..], c)
  }

  lemma EndedCons(line: Text, rest: seq<Text>, c: Byte)
    ensures Ended([line] + rest, c) == line + [c] + Ended(rest, c)
  {
  }

  lemma LinesCons(line: Text, rest: Text)
    requires NEWLINE !in line
    ensures Lines(line + [NEWLINE] + rest) == [line] + Lines(rest)
  {
    var text := line + [NEWLINE] + rest;
    assert text[..|line|] == line && text[|line| + 1..] == rest;
    IndexIs(text, NEWLINE, |line|);
  }

  lemma LastLine(line: Text)
    requires NEWLINE !in line && line != []
    ensures Lines(line) == [line]
  {
    assert line[..|line|] == line;
    IndexIs(line, NEWLINE, |line|);
  }

  /** Splitting a text into lines loses nothing but whether its last newline was there. */
  lemma {:induction false} LinesEnded(text: Text)
    ensures Ended(Lines(text), NEWLINE)
            == if text == [] || text[|text| - 1] == NEWLINE then text else text + [NEWLINE]
    decreases |text|
  {
    if text != [] {
      hide Lines, Ended, IndexOf;
      var n := IndexOf(text, NEWLINE);
      var line := text[..n];
      if n == |text| {
        assert line == text && text[|text| - 1] in text;
        LastLine(text);
        EndedCons(text, [], NEWLINE);
        NothingEnded();
      } else {
        var rest := text[n + 1..];
        assert text == line + [NEWLINE] + rest;
        LinesCons(line, rest);
        EndedCons(line, Lines(rest), NEWLINE);
        LinesEnded(rest);
      }
    }
  }

  lemma NothingEnded()
    ensures Lines([]) == [] && Ended([], NEWLINE) == []
  {
  }

  // ---------- Making a block ----------

  datatype Status = Good | TooLong | NoEquals | NoRoom | AreaTooLarge

  /** What is printed to the block, and whether all lines were taken. */
  datatype Loaded = Loaded(status: Status, env: Text)

  /** Whether makeenv takes a line, given the size of the environment area. */
  function Verdict(line: Text, free: int): Status {
    if |line| > MAX_LINE - 2 then TooLong
    else if EQUALS !in line then NoEquals
    else if free < |line| + 2 then NoRoom
    else Good
  }

  /** Takes lines up to the first bad one. */
  function LoadLines(lines: seq<Text>, free: int): Loaded {
    if lines == [] then Loaded(Good, [])
    else
      var v := Verdict(lines[0], free);
      if v != Good then Loaded(v, [])
      else
        var rest := LoadLines(lines[1..], free);
        Loaded(rest.status, lines[0] + [NUL] + rest.env)
  }

  /** Reads at most a buffer's worth of characters, up to a newline. */
  function Fgets(text: Text): (line: Text)
    ensures line <= text && |line| < MAX_LINE
  {
    var n := IndexOf(text, NEWLINE);
    if n < MAX_LINE - 1 then text[..if n < |text| then n + 1 else n] else text[..MAX_LINE - 1]
  }

  /** What a buffer's worth of characters says about the first line. */
  lemma NextLine(text: Text)
    requires text != []
    ensures var chunk := Fgets(text);
            && chunk != []
            && var ended := chunk[|chunk| - 1] == NEWLINE;
               var line := if ended then chunk[..|chunk| - 1] else chunk;
               if !ended && |chunk| == MAX_LINE - 1 then
                 Lines(text) != [] && |Lines(text)[0]| > MAX_LINE - 2
               else
                 |line| <= MAX_LINE - 2 && Lines(text) == [line] + Lines(text[|chunk|..])
  {
    var n := IndexOf(text, NEWLINE);
    var chunk := Fgets(text);
    if n < |text| && n < MAX_LINE - 1 {
      assert chunk[..n] == text[..n];
    } else {
      assert chunk[|chunk| - 1] == text[..n][|chunk| - 1];
    }
  }

  /** Copies a string into the block. */
  method Memcpy(block: array<Byte>, at: nat, s: Text)
    requires at + |s| <= block.Length
    modifies block
    ensures block[at..at + |s|] == s
    ensures forall k :: 0 <= k < at || at + |s| <= k < block.Length ==> block[k] == old(block[k])
  {
    for i := 0 to |s|
      invariant forall k :: 0 <= k < i ==> block[at + k] == s[k]
      invariant forall k :: 0 <= k < at || at + i <= k < block.Length ==> block[k] == old(block[k])
    {
      block[at + i] := s[i];
    }
  }

  /** What loading a text comes to, given its first chunk. */
  lemma NextLoad(text: Text, free: int)
    requires text != []
    ensures var chunk := Fgets(text);
            && chunk != []
            && var ended := chunk[|chunk| - 1] == NEWLINE;
               var line := if ended then chunk[..|chunk| - 1] else chunk;
               var rest := LoadLines(Lines(text[|chunk|..]), free);
               if !ended && |chunk| == MAX_LINE - 1 then
                 LoadLines(Lines(text), free) == Loaded(TooLong, [])
               else
                 && |line| <= MAX_LINE - 2
                 && LoadLines(Lines(text), free)
                    == if Verdict(line, free) == Good then Loaded(rest.status, line + [NUL] + rest.env)
                       else Loaded(Verdict(line, free), [])
  {
    hide Fgets, Lines, Verdict;
    NextLine(text);
    var chunk := Fgets(text);
    var ended := chunk[|chunk| - 1] == NEWLINE;
    if !ended && |chunk| == MAX_LINE - 1 {
      LongLine(Lines(text), free);
    } else {
      LoadCons(if ended then chunk[..|chunk| - 1] else chunk, Lines(text[|chunk|..]), free);
    }
  }

  lemma LoadCons(line: Text, rest: seq<Text>, free: int)
    ensures var after := LoadLines(rest, free);
            LoadLines([line] + rest, free)
            == if Verdict(line, free) == Good then Loaded(after.status, line + [NUL] + after.env)
               else Loaded(Verdict(line, free), [])
  {
  }

  lemma LongLine(lines: seq<Text>, free: int)
    requires lines != [] && |lines[0]| > MAX_LINE - 2
    ensures LoadLines(lines, free) == Loaded(TooLong, [])
  {
  }

  /** Whether env is what loading a text comes to as far as position next. */
  ghost predicate Reached(text: Text, free: int, next: nat, env: Text) {
    && next <= |text|
    && var rest := LoadLines(Lines(text[next..]), free);
       LoadLines(Lines(text), free) == Loaded(rest.status, env + rest.env)
  }

  lemma ReachedStart(text: Text, free: int)
    ensures Reached(text, free, 0, [])
  {
    assert text[0..] == text;
  }

  lemma ReachedEnd(text: Text, free: int, env: Text)
    requires Reached(text, free, |text|, env)
    ensures LoadLines(Lines(text), free) == Loaded(Good, env)
  {
    assert text[|text|..] == [];
  }

  lemma ReachedNext(text: Text, free: int, next: nat, env: Text)
    requires Reached(text, free, next, env) && next < |text|
    ensures var all := LoadLines(Lines(text), free);
            var chunk := Fgets(text[next..]);
            && chunk != []
            && var ended := chunk[|chunk| - 1] == NEWLINE;
               var line := if ended then chunk[..|chunk| - 1] else chunk;
               if !ended && |chunk| == MAX_LINE - 1 then all == Loaded(TooLong, env)
               else if Verdict(line, free) != Good then
                 |line| <= MAX_LINE - 2 && all == Loaded(Verdict(line, free), env)
               else
                 && Reached(text, free, next + |chunk|, env + (line + [NUL]))
                 && |env + (line + [NUL])| <= |all.env|
  {
    hide Fgets, Lines, LoadLines, Verdict;
    NextLoad(text[next..], free);
    var chunk := Fgets(text[next..]);
    assert text[next..][|chunk|..] == text[next + |chunk|..];
    var line := if chunk[|chunk| - 1] == NEWLINE then chunk[..|chunk| - 1] else chunk;
    var rest := LoadLines(Lines(text[next + |chunk|..]), free);
    assert env + (line + [NUL] + rest.env) == env + (line + [NUL]) + rest.env;
  }

  /** Copies a line after those before it. */
  method CopyLine(block: array<Byte>, at: nat, p: nat, line: Text)
    requires at <= p && p + |line| < block.Length
    modifies block
    ensures block[at..p + |line| + 1] == old(block[at..p]) + (line + [NUL])
    ensures forall k :: 0 <= k < at || p + |line| < k < block.Length ==> block[k] == old(block[k])
  {
    Memcpy(block, p, line + [NUL]);
    assert block[at..p] == old(block[at..p]);
    assert block[at..p + |line| + 1] == block[at..p] + block[p..p + |line| + 1];
  }

  /** Loads the next line behind those before it, or finds it bad. */
  method LoadLine(text: Text, block: array<Byte>, at: nat, free: int, next0: nat, p0: nat, ghost env0: Text)
    returns (status: Status, next: nat, p: nat, ghost env: Text)
    requires next0 < |text| && p0 == at + |env0|
    requires at + |LoadLines(Lines(text), free).env| < block.Length
    requires Reached(text, free, next0, env0) && block[at..p0] == env0
    modifies block
    ensures p0 <= p == at + |env| && |env| <= |LoadLines(Lines(text), free).env| && block[at..p] == env
    ensures forall k :: 0 <= k < at || p <= k < block.Length ==> block[k] == old(block[k])
    ensures if status == Good then next0 < next <= |text| && Reached(text, free, next, env)
            else LoadLines(Lines(text), free) == Loaded(status, env)
  {
    hide Lines, LoadLines, IndexOf, Fgets, Reached;
    next, p, env := next0, p0, env0;
    var line := Fgets(text[next..]);
    var length := |line|;
    ReachedNext(text, free, next, env);
    EnvGrows(text, free, next, env);
    next := next + length;
    if line[length - 1] == NEWLINE {
      line := line[..length - 1];
    } else if length == MAX_LINE - 1 {
      return TooLong, next, p, env;
    } else {
      length := length + 1;
    }
    if EQUALS !in line {
      return NoEquals, next, p, env;
    }
    if free < length + 1 {
      return NoRoom, next, p, env;
    }
    CopyLine(block, at, p, line);
    env := env + (line + [NUL]);
    p := p + length;
    status := Good;
  }

  lemma EnvGrows(text: Text, free: int, next: nat, env: Text)
    requires Reached(text, free, next, env)
    ensures next <= |text| && |env| <= |LoadLines(Lines(text), free).env|
  {
  }

  /** Loads the lines one after another, each ended by a NUL, and ends the list with another
    * NUL; a bad line stops it, leaving those before. The room is checked for each line alone,
    * so that all lines fit is for the caller to see to. */
  method LoadBlock(text: Text, block: array<Byte>, at: nat, free: int) returns (status: Status)
    requires NUL !in text
    requires at + |LoadLines(Lines(text), free).env| < block.Length
    modifies block
    ensures status == LoadLines(Lines(text), free).status
    ensures var env := LoadLines(Lines(text), free).env;
            && block[at..at + |env|] == env
            && (status == Good ==> block[at + |env|] == NUL)
            && (forall k :: 0 <= k < at || at + |env| < k < block.Length ==> block[k] == old(block[k]))
            && (status != Good ==> block[at + |env|] == old(block[at + |env|]))
  {
    hide Lines, LoadLines, Reached;
    var p, next := at, 0;
    ghost var env: Text := [];
    ReachedStart(text, free);
    status := Good;
    while next < |text|
      invariant next <= |text| && p == at + |env| && status == Good
      invariant Reached(text, free, next, env) && |env| <= |LoadLines(Lines(text), free).env|
      invariant block[at..p] == env
      invariant forall k :: 0 <= k < at || p <= k < block.Length ==> block[k] == old(block[k])
    {
      status, next, p, env := LoadLine(text, block, at, free, next, p, env);
      if status != Good {
        return;
      }
    }
    ReachedEnd(text, free, env);
    block[p] := NUL;
  }

  /** A word as four bytes, the lowest first. */
  function WordBytes(w: bv32): (s: Text)
    ensures |s| == 4
  {
    [(w & 0xff) as Byte, ((w >> 8) & 0xff) as Byte, ((w >> 16) & 0xff) as Byte, (w >> 24) as Byte]
  }

  /** The environment area after its checksum: the strings and zeros. */
  function Body(env: Text, size: nat): (body: Text)
    requires 4 + |env| < size
    ensures |body| == size - 4
  {
    env + seq(size - 4 - |env|, _ => NUL)
  }

  function Filler(n: nat): (s: Text)
    ensures |s| == n
  {
    seq(n, _ => 0xff)
  }

  /** Makes a block: the checksum of the environment area, the area, and the filler. */
  method MakeBlock(text: Text, blockSize: nat, envSize: nat) returns (status: Status, block: array<Byte>)
    requires NUL !in text
    requires envSize <= blockSize ==> 4 + |LoadLines(Lines(text), envSize - 4).env| < envSize
    ensures status == if envSize > blockSize then AreaTooLarge else LoadLines(Lines(text), envSize - 4).status
    ensures status == Good ==>
              var body := Body(LoadLines(Lines(text), envSize - 4).env, envSize);
              block[..] == WordBytes(Checksum(0, body)) + body + Filler(blockSize - envSize)
  {
    hide Lines, LoadLines, Checksum, WordBytes;
    block := new Byte[blockSize];
    if envSize > blockSize {
      return AreaTooLarge, block;
    }
    for i := 0 to blockSize
      invariant forall k :: 0 <= k < i ==> block[k] == 0xff
    {
      block[i] := 0xff;
    }
    for i := 0 to envSize
      invariant forall k :: 0 <= k < i ==> block[k] == 0
      invariant forall k :: envSize <= k < blockSize ==> block[k] == 0xff
    {
      block[i] := 0;
    }
    status := LoadBlock(text, block, 4, envSize - 4);
    if status != Good {
      return;
    }
    ghost var env := LoadLines(Lines(text), envSize - 4).env;
    assert block[4..envSize] == Body(env, envSize) by {
      assert forall k :: 0 <= k < |env| ==> block[4..4 + |env|][k] == env[k];
    }
    ghost var area := block[4..envSize];
    var crc := Crc32.Crc32(0, block[4..envSize]);
    Memcpy(block, 0, WordBytes(crc));
    assert block[4..envSize] == area;
    assert block[envSize..] == Filler(blockSize - envSize);
    assert block[..] == block[0..4] + block[4..envSize] + block[envSize..];
  }

  // ---------- Reading a block ----------

  /** What is printed when all of an area is listed: its strings up to the first empty one,
    * each on a line; a string cut short by the end of the input is printed as it is. */
  function Listing(area: Text): Text
    decreases |area|
  {
    var n := IndexOf(area, NUL);
    if n == |area| then area
    else if n == 0 then []
    else area[..n] + [NEWLINE] + Listing(area[n + 1..])
  }

  /** What follows the name and = of the first string that starts with them, looking no
    * further than the first empty string. */
  function Lookup(area: Text, name: Text): Option<Text>
    decreases |area|
  {
    var n := IndexOf(area, NUL);
    if name + [EQUALS] <= area[..n] then Some(area[..n][|name| + 1..])
    else if n == |area| || n == 0 then None
    else Lookup(area[n + 1..], name)
  }

  lemma ListNext(rest: Text, n: nat)
    requires n < |rest| && rest[n] == NUL && NUL !in rest[..n]
    ensures Listing(rest) == if n == 0 then [] else rest[..n] + [NEWLINE] + Listing(rest[n + 1..])
  {
    IndexIs(rest, NUL, n);
  }

  lemma ListLast(rest: Text)
    requires NUL !in rest
    ensures Listing(rest) == rest
  {
    assert rest[..|rest|] == rest;
    IndexIs(rest, NUL, |rest|);
  }

  lemma LookupNext(rest: Text, n: nat, name: Text)
    requires n < |rest| && rest[n] == NUL && NUL !in rest[..n]
    ensures Lookup(rest, name)
            == if name + [EQUALS] <= rest[..n] then Some(rest[..n][|name| + 1..])
               else if n == 0 then None else Lookup(rest[n + 1..], name)
  {
    IndexIs(rest, NUL, n);
  }

  lemma LookupLast(rest: Text, name: Text)
    requires NUL !in rest
    ensures Lookup(rest, name) == if name + [EQUALS] <= rest then Some(rest[|name| + 1..]) else None
  {
    assert rest[..|rest|] == rest;
    IndexIs(rest, NUL, |rest|);
  }

  /** How one more character of a string changes what is known of it. */
  lemma MatchNext(name: Text, cur: Text, ch: Byte)
    ensures cur + [ch] <= name <==> cur <= name && |cur| < |name| && ch == name[|cur|]
    ensures name + [EQUALS] <= cur + [ch] <==> name + [EQUALS] <= cur || (cur == name && ch == EQUALS)
  {
    if cur + [ch] <= name {
      assert cur == (cur + [ch])[..|cur|] == name[..|cur|];
      assert ch == (cur + [ch])[|cur|];
    }
    if name + [EQUALS] <= cur + [ch] {
      if |cur| == |name| {
        assert name == (name + [EQUALS])[..|name|] == (cur + [ch])[..|name|];
        assert (name + [EQUALS])[|name|] == (cur + [ch])[|name|];
      } else {
        assert (cur + [ch])[..|name| + 1] == cur[..|name| + 1];
      }
    }
  }

  /** What readenv knows between two characters: the string going on is cur, read from the
    * position the state is for. */
  ghost predicate Scanning(arg: Option<Text>, area: Text, rest: Text, cur: Text, out: Text,
                           printing: bool, matched: bool, matchPos: nat)
  {
    match arg
    case None =>
      && printing && !matched
      && |cur| <= |out| && Listing(area) == out[..|out| - |cur|] + Listing(rest) && out[|out| - |cur|..] == cur
    case Some(name) =>
      && Lookup(area, name) == Lookup(rest, name)
      && (matched <==> cur <= name) && (matched ==> matchPos == |cur|)
      && (printing <==> name + [EQUALS] <= cur)
      && out == if printing then cur[|name| + 1..] else []
  }

  /** Reads a block and prints all of it, or the value of one variable. */
  method ReadEnv(stdin: Text, arg: Option<Text>) returns (out: Text, exit: nat)
    ensures var area := if |stdin| < 4 then [] else stdin[4..];
            match arg
            case None => out == Listing(area) && exit == 0
            case Some(name) =>
              match Lookup(area, name)
              case Some(value) => out == value && exit == 0
              case None => out == [] && exit == 1
  {
    hide Scanning, Listing, Lookup, IndexOf;
    var next := if |stdin| < 4 then |stdin| else 4;
    ghost var area, start := stdin[next..], next;
    assert area == if |stdin| < 4 then [] else stdin[4..];
    var searching := arg.Some?;
    var printing := !searching;
    var matchPos := 0;
    var matched := searching;
    var eos := true;
    out := [];
    ScanStart(arg, area);
    while next < |stdin|
      invariant start <= next <= |stdin|
      invariant NUL !in stdin[start..next] && (eos <==> start == next)
      invariant searching == arg.Some?
      invariant Scanning(arg, area, stdin[start..], stdin[start..next], out, printing, matched, matchPos)
    {
      var ch := stdin[next];
      ghost var rest, cur := stdin[start..], stdin[start..next];
      Slices(stdin, start, next);
      next := next + 1;
      if ch == NUL {
        if searching {
          ScanSearched(arg.value, area, rest, cur, out, printing, matched, matchPos);
        } else {
          ScanListed(area, rest, cur, out, printing, matched, matchPos);
        }
        if searching && printing {
          return out, 0;
        }
        if eos {
          return out, if printing then 0 else 1;
        }
        if printing {
          out := out + [NEWLINE];
        }
        eos := true;
        matched := searching;
        matchPos := 0;
        start := next;
      } else {
        eos := false;
        out, printing, matched, matchPos :=
          TakeCharacter(arg, ch, out, printing, matched, matchPos, area, rest, cur);
      }
    }
    AllRead(stdin, start);
    ScanEnd(arg, area, stdin[start..], out, printing, matched, matchPos);
    exit := if printing then 0 else 1;
  }

  /** Takes in a character of a string: prints it if the string is being printed, and goes on
    * matching if it has matched so far. */
  method TakeCharacter(arg: Option<Text>, ch: Byte, out0: Text, printing0: bool, matched0: bool, matchPos0: nat,
                       ghost area: Text, ghost rest: Text, ghost cur: Text)
    returns (out: Text, printing: bool, matched: bool, matchPos: nat)
    requires Scanning(arg, area, rest, cur, out0, printing0, matched0, matchPos0)
    ensures Scanning(arg, area, rest, cur + [ch], out, printing, matched, matchPos)
  {
    hide Scanning;
    ScanCharacter(arg, area, rest, cur, out0, printing0, matched0, matchPos0, ch);
    out, printing, matched, matchPos := out0, printing0, matched0, matchPos0;
    if printing {
      out := out + [ch];
    }
    if matched {
      if matchPos == |arg.value| {
        printing := ch == EQUALS;
        matched := false;
      } else {
        matched := ch == arg.value[matchPos];
        matchPos := matchPos + 1;
      }
    }
  }

  /** The string going on, the character after it, and what follows. */
  lemma Slices<T>(s: seq<T>, start: nat, next: nat)
    requires start <= next < |s|
    ensures var rest, cur := s[start..], s[start..next];
            && |cur| < |rest| && rest[..|cur|] == cur && rest[|cur|] == s[next]
            && rest[|cur| + 1..] == s[next + 1..] && cur + [s[next]] == s[start..next + 1]
    ensures s[next + 1..next + 1] == []
  {
  }

  lemma AllRead<T>(s: seq<T>, start: nat)
    requires start <= |s|
    ensures s[start..|s|] == s[start..]
  {
  }

  lemma ScanStart(arg: Option<Text>, area: Text)
    ensures Scanning(arg, area, area, [], [], !arg.Some?, arg.Some?, 0)
  {
  }

  /** The answer when the input ends within a string. */
  lemma ScanEnd(arg: Option<Text>, area: Text, rest: Text, out: Text,
                printing: bool, matched: bool, matchPos: nat)
    requires Scanning(arg, area, rest, rest, out, printing, matched, matchPos) && NUL !in rest
    ensures match arg
            case None => out == Listing(area) && printing
            case Some(name) => Lookup(area, name) == if printing then Some(out) else None
    ensures arg.Some? && !printing ==> out == []
  {
    if arg.Some? {
      LookupLast(rest, arg.value);
    } else {
      ListLast(rest);
    }
  }

  /** The end of a string, in listing. */
  lemma ScanListed(area: Text, rest: Text, cur: Text, out: Text,
                   printing: bool, matched: bool, matchPos: nat)
    requires Scanning(None, area, rest, cur, out, printing, matched, matchPos)
    requires |cur| < |rest| && cur == rest[..|cur|] && rest[|cur|] == NUL && NUL !in cur
    ensures printing
    ensures if cur == [] then out == Listing(area)
            else Scanning(None, area, rest[|cur| + 1..], [], out + [NEWLINE], true, false, 0)
  {
    hide Listing;
    ListNext(rest, |cur|);
    EndLine(out[..|out| - |cur|], cur, NEWLINE, Listing(rest[|cur| + 1..]), out);
  }

  lemma EndLine<T>(before: seq<T>, cur: seq<T>, c: T, more: seq<T>, out: seq<T>)
    requires |cur| <= |out| && before == out[..|out| - |cur|] && cur == out[|out| - |cur|..]
    ensures before + (cur + [c] + more) == out + [c] + more
    ensures (out + [c])[..|out + [c]|] == out + [c] && (out + [c])[|out + [c]|..] == []
    ensures cur == [] ==> before + [] == out
  {
    assert out == before + cur;
  }

  /** The end of a string, in searching. */
  lemma ScanSearched(name: Text, area: Text, rest: Text, cur: Text, out: Text,
                     printing: bool, matched: bool, matchPos: nat)
    requires Scanning(Some(name), area, rest, cur, out, printing, matched, matchPos)
    requires |cur| < |rest| && cur == rest[..|cur|] && rest[|cur|] == NUL && NUL !in cur
    ensures if printing then Lookup(area, name) == Some(out)
            else out == []
                 && if cur == [] then Lookup(area, name) == None
                    else Scanning(Some(name), area, rest[|cur| + 1..], [], out, false, true, 0)
  {
    hide Lookup;
    LookupNext(rest, |cur|, name);
  }

  lemma ScanCharacter(arg: Option<Text>, area: Text, rest: Text, cur: Text, out: Text,
                      printing: bool, matched: bool, matchPos: nat, ch: Byte)
    requires Scanning(arg, area, rest, cur, out, printing, matched, matchPos)
    ensures arg.None? ==>
              printing && !matched && Scanning(arg, area, rest, cur + [ch], out + [ch], true, false, matchPos)
    ensures arg.Some? ==>
              var name := arg.value;
              var out' := if printing then out + [ch] else out;
              if matched then
                && matchPos <= |name|
                && (if matchPos == |name| then
                      Scanning(arg, area, rest, cur + [ch], out', ch == EQUALS, false, matchPos)
                    else
                      Scanning(arg, area, rest, cur + [ch], out', printing, ch == name[matchPos], matchPos + 1))
              else Scanning(arg, area, rest, cur + [ch], out', printing, false, matchPos)
  {
    if arg.Some? {
      MatchNext(arg.value, cur, ch);
    } else {
      var start := |out| - |cur|;
      assert (out + [ch])[..start] == out[..start];
      assert (out + [ch])[start..] == out[start..] + [ch];
    }
  }

  /** After the strings and the end mark the area is zero up to its end, and from there on the
    * block is 0xff. */
  lemma Padding(checksum: Text, env: Text, blockSize: nat, envSize: nat, k: nat)
    requires |checksum| == 4 && 4 + |env| < envSize <= blockSize && k < blockSize
    ensures var block := checksum + Body(env, envSize) + Filler(blockSize - envSize);
            && |block| == blockSize
            && (4 + |env| <= k < envSize ==> block[k] == 0)
            && (envSize <= k ==> block[k] == 0xff)
  {
  }

  // ---------- From lines to a block and back ----------

  /** The strings of a block's area, as makeenv leaves them. */
  function Area(lines: seq<Text>, padding: Text): Text {
    Ended(lines, NUL) + [NUL] + padding
  }

  /** The value of the first line that starts with the name and =. */
  function FirstValue(lines: seq<Text>, name: Text): Option<Text> {
    if lines == [] then None
    else if name + [EQUALS] <= lines[0] then Some(lines[0][|name| + 1..])
    else FirstValue(lines[1..], name)
  }

  lemma {:induction false} FirstValueIsFirst(lines: seq<Text>, name: Text)
    ensures match FirstValue(lines, name)
            case None => forall line :: line in lines ==> !(name + [EQUALS] <= line)
            case Some(value) =>
              exists i :: 0 <= i < |lines| && lines[i] == name + [EQUALS] + value
                          && forall line :: line in lines[..i] ==> !(name + [EQUALS] <= line)
  {
    if lines != [] {
      if name + [EQUALS] <= lines[0] {
        assert lines[0] == name + [EQUALS] + lines[0][|name| + 1..];
        assert lines[..0] == [];
      } else {
        FirstValueIsFirst(lines[1..], name);
        if FirstValue(lines[1..], name).Some? {
          var i :| 0 <= i < |lines| - 1 && lines[1..][i] == name + [EQUALS] + FirstValue(lines, name).value
                   && forall line :: line in lines[1..][..i] ==> !(name + [EQUALS] <= line);
          assert lines[..i + 1] == [lines[0]] + lines[1..][..i];
          assert lines[i + 1] == name + [EQUALS] + FirstValue(lines, name).value;
        } else {
          assert lines == [lines[0]] + lines[1..];
        }
      }
    }
  }

  /** Loading succeeds if and only if every line holds an = and fits both the line buffer and
    * the area by itself; the strings are then the lines. */
  lemma {:induction false} LoadSucceeds(lines: seq<Text>, free: int)
    ensures LoadLines(lines, free).status == Good
            <==> forall line :: line in lines ==> |line| <= 1022 && EQUALS in line && |line| + 2 <= free
    ensures LoadLines(lines, free).status == Good ==> LoadLines(lines, free).env == Ended(lines, NUL)
  {
    if lines != [] {
      LoadSucceeds(lines[1..], free);
      assert lines == [lines[0]] + lines[1..];
    }
  }

  /** Loading stops at the first bad line, for its first fault: its length, the missing =, or the
    * room; the lines before it are there. */
  lemma {:induction false} FirstBadLine(lines: seq<Text>, free: int, i: nat)
    requires i < |lines| && forall line :: line in lines[..i] ==> Verdict(line, free) == Good
    requires Verdict(lines[i], free) != Good
    ensures LoadLines(lines, free).env == Ended(lines[..i], NUL)
    ensures LoadLines(lines, free).status
            == if |lines[i]| > 1022 then TooLong else if 0x3d !in lines[i] then NoEquals else NoRoom
    decreases i
  {
    if i > 0 {
      assert lines[..i] == [lines[0]] + lines[1..][..i - 1];
      assert lines[0] in lines[..i];
      FirstBadLine(lines[1..], free, i - 1);
      EndedCons(lines[0], lines[1..][..i - 1], NUL);
    } else {
      assert lines[..0] == [];
    }
  }

  lemma {:induction false} EndedLength(lines: seq<Text>, c: Byte, d: Byte)
    ensures |Ended(lines, c)| == |Ended(lines, d)|
  {
    if lines != [] {
      EndedLength(lines[1..], c, d);
    }
  }

  /** The room the strings of a text take: one NUL for each newline, one for a last line
    * without newline. */
  lemma RoomNeeded(text: Text, free: int)
    requires LoadLines(Lines(text), free).status == Good
    ensures |LoadLines(Lines(text), free).env|
            == if text == [] || text[|text| - 1] == NEWLINE then |text| else |text| + 1
  {
    LoadSucceeds(Lines(text), free);
    EndedLength(Lines(text), NUL, NEWLINE);
    LinesEnded(text);
  }

  /** Success does not mean that there was room: the text `a=`, `b=` in two lines that fit an
    * area of five bytes one by one is taken as a whole. */
  lemma RoomIsNotChecked()
    ensures var lines := Lines([0x61, 0x3d, 0x0a, 0x62, 0x3d, 0x0a]);
            && LoadLines(lines, 5) == Loaded(Good, [0x61, 0x3d, 0, 0x62, 0x3d, 0])
            && |LoadLines(lines, 5).env| + 1 > 5
  {
    hide Lines, LoadLines, IndexOf, Ended;
    var first, second: Text := [0x61, 0x3d], [0x62, 0x3d];
    NothingEnded();
    LinesCons(second, []);
    LinesCons(first, second + [NEWLINE]);
    assert second + [NEWLINE] + [] == second + [NEWLINE];
    assert first + [NEWLINE] + (second + [NEWLINE]) == [0x61, 0x3d, 0x0a, 0x62, 0x3d, 0x0a];
    assert [first] + ([second] + []) == [first, second];
    assert first[1] == second[1] == EQUALS;
    LoadSucceeds([first, second], 5);
    EndedCons(second, [], NUL);
    EndedCons(first, [second], NUL);
    assert [second] + [] == [second] && [first] + [second] == [first, second];
    NoLinesEnded();
  }

  lemma NoLinesEnded()
    ensures Ended([], NUL) == []
  {
  }

  lemma AreaCons(line: Text, rest: seq<Text>, padding: Text)
    ensures Area([line] + rest, padding) == line + [NUL] + Area(rest, padding)
  {
    EndedCons(line, rest, NUL);
  }

  predicate Strings(lines: seq<Text>) {
    forall line :: line in lines ==> line != [] && NUL !in line
  }

  /** Listing a block gives the lines it was made of. */
  lemma {:induction false} ListingOfArea(lines: seq<Text>, padding: Text)
    requires Strings(lines)
    ensures Listing(Area(lines, padding)) == Ended(lines, NEWLINE)
    decreases |lines|
  {
    hide Listing, Area, Ended;
    var area := Area(lines, padding);
    if lines == [] {
      EmptyArea(padding);
      ListNext(area, 0);
    } else {
      var line, rest := lines[0], lines[1..];
      assert lines == [line] + rest;
      AreaCons(line, rest, padding);
      assert area[..|line|] == line && area[|line| + 1..] == Area(rest, padding);
      ListNext(area, |line|);
      assert forall s :: s in rest ==> s in lines;
      ListingOfArea(rest, padding);
      EndedCons(line, rest, NEWLINE);
    }
  }

  lemma EmptyArea(padding: Text)
    ensures Area([], padding) == [NUL] + padding && Ended([], NEWLINE) == []
  {
  }

  /** Looking up a name in a block gives the value of the first line for it. */
  lemma {:induction false} LookupOfArea(lines: seq<Text>, padding: Text, name: Text)
    requires Strings(lines)
    ensures Lookup(Area(lines, padding), name) == FirstValue(lines, name)
    decreases |lines|
  {
    hide Lookup, Area;
    var area := Area(lines, padding);
    if lines == [] {
      EmptyArea(padding);
      LookupNext(area, 0, name);
    } else {
      var line, rest := lines[0], lines[1..];
      assert lines == [line] + rest;
      AreaCons(line, rest, padding);
      assert area[..|line|] == line && area[|line| + 1..] == Area(rest, padding);
      LookupNext(area, |line|, name);
      assert forall s :: s in rest ==> s in lines;
      LookupOfArea(rest, padding, name);
    }
  }

  lemma {:induction false} LinesWithoutNul(text: Text)
    requires NUL !in text
    ensures forall line :: line in Lines(text) ==> NUL !in line
    decreases |text|
  {
    if text != [] {
      var n := IndexOf(text, NEWLINE);
      LinesWithoutNul(if n == |text| then [] else text[n + 1..]);
    }
  }

  /** Reading back a block that makeenv has made: all of it is the text, with a newline at its
    * end; a name gives the value of the first line for it. The checksum, the rest of the area
    * and the filler have no part in it. */
  lemma RoundTrip(text: Text, checksum: Text, envSize: nat, filler: Text, name: Text)
    requires NUL !in text && |checksum| == 4
    requires LoadLines(Lines(text), envSize - 4).status == Good
    requires 4 + |LoadLines(Lines(text), envSize - 4).env| < envSize
    ensures var block := checksum + Body(LoadLines(Lines(text), envSize - 4).env, envSize) + filler;
            && Listing(block[4..]) == (if text == [] || text[|text| - 1] == NEWLINE then text else text + [NEWLINE])
            && Lookup(block[4..], name) == FirstValue(Lines(text), name)
  {
    hide Lines, LoadLines, Listing, Lookup, FirstValue, Ended;
    var lines := Lines(text);
    var env := LoadLines(lines, envSize - 4).env;
    LoadSucceeds(lines, envSize - 4);
    LinesWithoutNul(text);
    LinesEnded(text);
    var block := checksum + Body(env, envSize) + filler;
    var padding := seq(envSize - 5 - |env|, _ => NUL) + filler;
    assert block[4..] == Area(lines, padding);
    ListingOfArea(lines, padding);
    LookupOfArea(lines, padding, name);
  }

  /** Making a block and reading it: all of it gives the text back, and a name the value of the
    * first line for it, or nothing and exit code 1 when there is no such line. */
  method MakeAndRead(text: Text, blockSize: nat, envSize: nat, arg: Option<Text>)
    returns (status: Status, out: Text, exit: nat)
    requires NUL !in text
    requires envSize <= blockSize ==> 4 + |LoadLines(Lines(text), envSize - 4).env| < envSize
    ensures status == if envSize > blockSize then AreaTooLarge else LoadLines(Lines(text), envSize - 4).status
    ensures status == Good ==>
              match arg
              case None =>
                && exit == 0
                && out == if text == [] || text[|text| - 1] == NEWLINE then text else text + [NEWLINE]
              case Some(name) =>
                match FirstValue(Lines(text), name)
                case Some(value) => out == value && exit == 0
                case None => out == [] && exit == 1
  {
    hide Lines, LoadLines, Listing, Lookup, FirstValue, Checksum, WordBytes, Body;
    var block: array<Byte>;
    status, block := MakeBlock(text, blockSize, envSize);
    if status != Good {
      return status, [], 1;
    }
    ghost var body := Body(LoadLines(Lines(text), envSize - 4).env, envSize);
    RoundTrip(text, WordBytes(Checksum(0, body)), envSize, Filler(blockSize - envSize),
              if arg.Some? then arg.value else []);
    out, exit := ReadEnv(block[..], arg);
  }

  // ---------- The checksum in the block ----------

  lemma SplitBytes(w: bv32)
    ensures Xor(((w & 0xff) as bv8) as bv32,
                Up(Xor((((w >> 8) & 0xff) as bv8) as bv32,
                       Up(Xor((((w >> 16) & 0xff) as bv8) as bv32,
                              Up(((w >> 24) as bv8) as bv32)))))) == w
  {
  }

  lemma WordOfFour(a: bv8, b: bv8, c: bv8, d: bv8)
    ensures Word([a, b, c, d]) == Xor(a as bv32, Up(Xor(b as bv32, Up(Xor(c as bv32, Up(d as bv32))))))
  {
    hide Xor, Up, Word;
    WordCons(a, [b, c, d]);
    WordCons(b, [c, d]);
    WordCons(c, [d]);
    WordCons(d, []);
    assert [a] + [b, c, d] == [a, b, c, d] && [b] + [c, d] == [b, c, d] && [c] + [d] == [c, d] && [d] + [] == [d];
    LastOfFour(d);
  }

  lemma WordCons(b: bv8, rest: seq<bv8>)
    requires |rest| < 4
    ensures Word([b] + rest) == Xor(b as bv32, Up(Word(rest)))
    ensures rest == [] ==> Word(rest) == 0
  {
    hide Xor, Up;
    assert ([b] + rest)[1..] == rest;
  }

  lemma LastOfFour(d: bv8)
    ensures Xor(d as bv32, Up(0)) == d as bv32
  {
  }

  /** The four bytes in front of the area give its checksum back. */
  lemma StoredChecksum(w: bv32)
    ensures Word(WordBytes(w)) == w
  {
    hide Word, Xor, Up;
    WordOfFour((w & 0xff) as bv8, ((w >> 8) & 0xff) as bv8, ((w >> 16) & 0xff) as bv8, (w >> 24) as bv8);
    SplitBytes(w);
  }

  /** When up to four bytes in a row of an area are changed, its checksum no longer is the
    * one stored in front of it. */
  lemma ChangesAreNoticed(before: Text, x: Text, y: Text, after: Text)
    requires |x| == |y| <= 4 && x != y
    ensures var stored := WordBytes(Checksum(0, before + x + after));
            Word(stored) != Checksum(0, before + y + after)
  {
    StoredChecksum(Checksum(0, before + x + after));
    BurstsAreDetected(0, before, x, y, after);
  }
}
