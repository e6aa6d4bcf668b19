/**
 * The header line a client sends after authenticating, such as
 * `app_logs.5390f5665a454e77990b0000 option1 option2`: the first
 * whitespace-delimited token names the command (up to its first dot) and the
 * remaining tokens are the command's options.
 */
module Headers {
  import opened Wrappers
  import opened RubyText

  /** The connection's `@command` (the first token split at every dot) and `@options`. */
  datatype Header = Header(command: seq<string>, options: seq<string>)

  /** A header line with nothing but whitespace has no first token: Ruby fails on `nil.split`. */
  datatype Parse = BlankLine | Parsed(header: Header)

  /**
   * Strips the line, splits it once at whitespace into the first token and the
   * rest, splits the token at every dot and the rest at whitespace.
   */
  function ParseHeader(line: string): (p: Parse)
    ensures p == BlankLine <==> forall i :: 0 <= i < |line| ==> IsStripChar(line[i])
    ensures p.Parsed? ==> forall k :: 0 <= k < |p.header.options| ==> IsToken(p.header.options[k])
    ensures p.Parsed? ==> forall k :: 0 <= k < |p.header.command| ==> '.' !in p.header.command[k]
  {
    var parts := SplitTwo(Strip(line));
    if |parts| == 0 then BlankLine
    else Parsed(Header(DotSplit(parts[0]), if |parts| == 2 then Fields(parts[1]) else []))
  }

  /** `@command[0]`: the name of the handler to run; `nil` when the token is made only of dots. */
  function CommandName(h: Header): (name: Option<string>)
    ensures name.Some? <==> h.command != []
    ensures name.Some? ==> name.value == h.command[0]
  {
    if h.command == [] then None else Some(h.command[0])
  }

  /**
   * A header is blank exactly when the stripped line has no token; otherwise
   * the command is the first token split at its dots and the options are the
   * other tokens, in order.
   */
  lemma ParseHeaderFields(line: string)
    ensures var fs := Fields(Strip(line));
      (ParseHeader(line) == BlankLine <==> fs == []) &&
      (fs != [] ==> ParseHeader(line) == Parsed(Header(DotSplit(fs[0]), fs[1..])))
  {
    var s := Strip(line);
    var parts, fs := SplitTwo(s), Fields(s);
    SplitTwoFields(s);
    if s != [] {
      assert !IsSpace(s[0]);
      DropSpacesOfStart(s);
      var w := Word(s);
      assert w != [];
      assert parts[0] == w;
      assert fs != [];
      if |parts| == 1 {
        assert fs[1..] == [];
      }
    }
  }

  /**
   * The command name is the first token of the stripped line up to its first
   * dot, and there is none exactly when that token is made only of dots.
   */
  lemma CommandNameOfLine(line: string)
    requires ParseHeader(line).Parsed?
    ensures var token := Fields(Strip(line))[0];
      var name := CommandName(ParseHeader(line).header);
      (name.None? <==> forall i :: 0 <= i < |token| ==> token[i] == '.') &&
      (name.Some? ==> name.value == UpToDot(token))
  {
    ParseHeaderFields(line);
    DotSplitHead(Fields(Strip(line))[0]);
  }

  /** A non-empty token with no whitespace and no NUL: `strip` leaves it alone. */
  predicate PlainToken(w: string)
  {
    w != [] && forall i :: 0 <= i < |w| ==> !IsStripChar(w[i])
  }

  /** Stripping the line terminator off text that has no whitespace at either end. */
  lemma StripLine(s: string)
    requires s != [] && !IsStripChar(s[0]) && !IsStripChar(s[|s| - 1])
    ensures Strip(s + "\n") == s
  {
    var t := s + "\n";
    assert StripLeading(t) == t;
    assert t[..|t| - 1] == s;
    assert StripTrailing(t) == StripTrailing(s);
  }

  /**
   * The header shape of the engine's own example
   * (`app_logs.5390f5665a454e77990b0000 option1 option2`): a command name, a
   * dot, an identifier, then options, all separated by single spaces and ended
   * by a line terminator, parses to that name and identifier and those options.
   */
  lemma {:induction false} HeaderOfParts(name: string, id: string, options: seq<string>)
    requires PlainToken(name) && PlainToken(id) && '.' !in name && '.' !in id
    requires forall k :: 0 <= k < |options| ==> PlainToken(options[k])
    ensures var p := ParseHeader(Join([name + "." + id] + options, ' ') + "\n");
      p == Parsed(Header([name, id], options)) && CommandName(p.header) == Some(name)
  {
    var token := name + "." + id;
    var tokens := [token] + options;
    var text := Join(tokens, ' ');
    DottedIsPlain(name, id);
    assert forall k :: 0 <= k < |tokens| ==> PlainToken(tokens[k]) by {
      assert tokens[0] == token;
      assert forall k :: 1 <= k < |tokens| ==> tokens[k] == options[k - 1];
    }
    PlainTokensAreTokens(tokens);
    FieldsOfJoin(tokens);
    JoinEnds(tokens);
    StripLine(text);
    ParseHeaderFields(text + "\n");
    DotSplitOfDotted(name, id);
    assert tokens[1..] == options;
  }

  /** `split('.')` of a dotted pair of non-empty dot-free words gives the two words. */
  lemma DotSplitOfDotted(name: string, id: string)
    requires '.' !in name && '.' !in id && id != []
    ensures DotSplit(name + "." + id) == [name, id]
  {
    var names := [name, id];
    assert names[1..] == [id];
    assert Join(names, '.') == name + "." + id;
    PiecesOfJoin(names, '.');
  }

  lemma DottedIsPlain(name: string, id: string)
    requires PlainToken(name) && PlainToken(id)
    ensures PlainToken(name + "." + id)
  {
    var t := name + "." + id;
    forall i | 0 <= i < |t| ensures !IsStripChar(t[i]) {
      if i < |name| {
        assert t[i] == name[i];
      } else if i > |name| {
        assert t[i] == id[i - |name| - 1];
      }
    }
  }

  lemma PlainTokensAreTokens(ts: seq<string>)
    requires forall k :: 0 <= k < |ts| ==> PlainToken(ts[k])
    ensures forall k :: 0 <= k < |ts| ==> IsToken(ts[k])
  {
    forall k | 0 <= k < |ts| ensures IsToken(ts[k]) {
      assert PlainToken(ts[k]);
    }
  }

  /** A line of plain tokens starts with the first token's first character and ends with the last token's last one. */
  lemma {:induction false} JoinEnds(ts: seq<string>)
    requires |ts| >= 1 && forall k :: 0 <= k < |ts| ==> ts[k] != []
    ensures var s := Join(ts, ' ');
      s != [] && s[0] == ts[0][0] && s[|s| - 1] == ts[|ts| - 1][|ts[|ts| - 1]| - 1]
  {
    if |ts| > 1 {
      JoinEnds(ts[1..]);
    }
  }
}
