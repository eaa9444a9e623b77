/** Mode strings: how the file class reads them, and how the patched open() rewrites them first. */
module FileModes {

  datatype FileMode = FileMode(readable: bool, writable: bool, append: bool, truncate: bool, binary: bool)

  /** FileMode::parse */
  function Parse(mode: string): FileMode {
    var m := if mode == "" then "rb" else mode;
    FileMode(
      'r' in m || '+' in m || ('w' !in m && 'a' !in m),
      'w' in m || 'a' in m || '+' in m,
      'a' in m,
      'w' in m,
      'b' in m)
  }

  /** The flags of std::fs::OpenOptions this code touches. */
  datatype Flags = Flags(read: bool, write: bool, append: bool, truncate: bool, create: bool)

  class OpenOptions {
    var read: bool
    var write: bool
    var append: bool
    var truncate: bool
    var create: bool

    constructor ()
      ensures Current() == Flags(false, false, false, false, false)
    {
      read, write, append, truncate, create := false, false, false, false, false;
    }

    function Current(): Flags
      reads this
    {
      Flags(read, write, append, truncate, create)
    }
  }

  /** What a mode asks of open(2). A mode with both `w` and `a` truncates. */
  function FlagsOf(m: FileMode): Flags {
    Flags(m.readable || !m.writable, m.writable, m.writable && m.append && !m.truncate,
          m.writable && m.truncate, m.writable)
  }

  /** configure_open_options: flags are only ever switched on. */
  method ConfigureOpenOptions(m: FileMode, options: OpenOptions)
    modifies options
    ensures var was, want := old(options.Current()), FlagsOf(m);
            options.Current() == Flags(was.read || want.read, was.write || want.write, was.append || want.append,
                                       was.truncate || want.truncate, was.create || want.create)
  {
    if m.writable {
      if m.truncate {
        options.write, options.create, options.truncate := true, true, true;
      } else if m.append {
        options.write, options.create, options.append := true, true, true;
      } else {
        options.write, options.create := true, true;
      }
      if m.readable {
        options.read := true;
      }
    } else {
      options.read := true;
    }
  }

  /** For every mode string, a fresh set of options ends up with the parsed access, never with none;
      truncating exactly when `w` occurs, appending exactly when `a` occurs without `w`, never both. */
  method OpenOptionsFor(mode: string) returns (options: OpenOptions)
    ensures fresh(options)
    ensures options.read == Parse(mode).readable && options.write == Parse(mode).writable
    ensures options.read || options.write
    ensures options.truncate <==> 'w' in mode
    ensures options.append <==> 'a' in mode && 'w' !in mode
    ensures !(options.truncate && options.append)
    ensures options.create <==> options.write
  {
    options := new OpenOptions();
    FlagsMatchMode(mode);
    ConfigureOpenOptions(Parse(mode), options);
  }

  lemma FlagsMatchMode(mode: string)
    ensures var m, f := Parse(mode), FlagsOf(Parse(mode));
            && f.read == m.readable && f.write == m.writable && (f.read || f.write)
            && (f.truncate <==> 'w' in mode)
            && (f.append <==> 'a' in mode && 'w' !in mode)
            && !(f.truncate && f.append)
  {
    assert 'r' in "rb" && 'w' !in "rb" && 'a' !in "rb" && '+' !in "rb";
  }

  // --- patched_open ---

  /** mode.replace("+", "b+") */
  function ReplacePlus(mode: string): string {
    if mode == "" then ""
    else Replacement(mode[0]) + ReplacePlus(mode[1..])
  }

  function Replacement(c: char): string {
    if c == '+' then "b+" else [c]
  }

  /** The mode the raw file is opened with. */
  function RawMode(mode: string): string {
    if 'b' !in mode && 't' !in mode then
      if '+' !in mode then mode + "b" else ReplacePlus(mode)
    else mode
  }

  datatype Buffer = Random | Writer | Reader

  datatype Stream =
    | Raw
    | Buffered(buffer: Buffer)
    | Text(buffer: Buffer)
    | NoUnbufferedText

  function ChooseBuffer(mode: string): Buffer {
    if 'w' in mode || 'a' in mode || '+' in mode then
      if 'r' in mode || '+' in mode then Random else Writer
    else Reader
  }

  /** The stream patched_open wraps around the raw file. */
  function ChooseStream(mode: string, buffering: int): Stream {
    if 'b' in mode then
      if buffering == 0 then Raw else Buffered(ChooseBuffer(mode))
    else if buffering == 0 then NoUnbufferedText
    else Text(ChooseBuffer(mode))
  }

  lemma {:induction false} ReplacePlusHas(mode: string, c: char)
    ensures c in ReplacePlus(mode) <==> c in mode || (c == 'b' && '+' in mode)
  {
    if mode != "" {
      ReplacePlusHas(mode[1..], c);
      assert mode == [mode[0]] + mode[1..];
      assert c in Replacement(mode[0]) <==> c == mode[0] || (c == 'b' && mode[0] == '+');
    }
  }

  lemma {:induction false} ReplaceConcat(a: string, b: string)
    ensures ReplacePlus(a + b) == ReplacePlus(a) + ReplacePlus(b)
  {
    if a == "" {
      assert a + b == b;
    } else {
      ReplaceConcat(a[1..], b);
      assert (a + b)[1..] == a[1..] + b;
      hide Replacement;
      Grouped(Replacement(a[0]), ReplacePlus(a[1..]), ReplacePlus(b));
    }
  }

  lemma Grouped(a: string, b: string, c: string)
    ensures a + b + c == a + (b + c)
  {
  }

  lemma {:induction false} NothingReplaced(mode: string)
    requires '+' !in mode
    ensures ReplacePlus(mode) == mode
  {
    if mode != "" {
      NothingReplaced(mode[1..]);
    }
  }

  lemma OnePlus(before: string, plus: string, after: string)
    requires '+' !in before && '+' !in after && plus == "+"
    ensures ReplacePlus(before + plus + after) == before + "b+" + after
  {
    assert plus[1..] == "";
    NothingReplaced(before);
    NothingReplaced(after);
    ReplaceConcat(before + plus, after);
    ReplaceConcat(before, plus);
  }

  predicate Plain(s: string) {
    'b' !in s && 't' !in s && '+' !in s
  }

  lemma PlainWithPlus(before: string, plus: string, after: string)
    requires Plain(before) && Plain(after) && plus == "+"
    ensures var mode := before + plus + after;
            'b' !in mode && 't' !in mode && '+' in mode
  {
    assert (before + plus + after)[|before|] == '+';
  }

  /** Where rewriting puts the `b`: before a plus sign, or else at the end. */
  lemma RawModePlaces(before: string, after: string)
    requires Plain(before) && Plain(after)
    ensures RawMode(before + "+" + after) == before + "b+" + after
    ensures RawMode(before) == before + "b"
  {
    hide ReplacePlus;
    PlainWithPlus(before, "+", after);
    OnePlus(before, "+", after);
  }

  /** Rewriting adds `b` and nothing else. */
  lemma RawModeHas(mode: string, c: char)
    ensures c in RawMode(mode) <==> c in mode || (c == 'b' && 't' !in mode)
  {
    ReplacePlusHas(mode, c);
    assert c in mode + "b" <==> c in mode || c == 'b';
  }

  /** Rewriting the mode never changes what the file is opened for. */
  lemma RawModeKeepsAccess(mode: string)
    ensures var m, raw := Parse(mode), Parse(RawMode(mode));
            && raw.readable == m.readable && raw.writable == m.writable
            && raw.append == m.append && raw.truncate == m.truncate
    ensures mode != "" ==> (Parse(RawMode(mode)).binary <==> 'b' in mode || 't' !in mode)
  {
    RawModeHas(mode, 'r');
    RawModeHas(mode, 'w');
    RawModeHas(mode, 'a');
    RawModeHas(mode, '+');
    RawModeHas(mode, 'b');
    assert 'w' !in "rb" && 'a' !in "rb" && '+' !in "rb" && 'r' in "rb";
  }

  /** The wrapper, chosen from the mode as given, fits the access of the raw file, opened with the
      rewritten one. */
  lemma WrapperFitsFile(mode: string, buffering: int)
    ensures var raw, stream := Parse(RawMode(mode)), ChooseStream(mode, buffering);
            && (stream.Raw? <==> 'b' in mode && buffering == 0)
            && (stream.NoUnbufferedText? <==> 'b' !in mode && buffering == 0)
            && (stream.Buffered? <==> 'b' in mode && buffering != 0)
            && (stream.Text? <==> 'b' !in mode && buffering != 0)
            && (stream.Buffered? || stream.Text? ==>
                  && (stream.buffer.Random? <==> raw.readable && raw.writable)
                  && (stream.buffer.Writer? <==> !raw.readable && raw.writable)
                  && (stream.buffer.Reader? <==> raw.readable && !raw.writable))
  {
    RawModeKeepsAccess(mode);
    assert 'w' !in "rb" && 'a' !in "rb" && '+' !in "rb" && 'r' in "rb";
  }
}
