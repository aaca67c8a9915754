/**
 * The kinds of ROM the emulator can run, recognised from a file name's
 * extension, and each kind's native screen resolution.
 */
module RomTypes {
  import opened Options

  datatype RomType = GameBoy | Gba
  {
    /** Native screen width in pixels. */
    function Width(): nat
    {
      match this
      case GameBoy => 160
      case Gba => 240
    }

    /** Native screen height in pixels. */
    function Height(): nat
    {
      match this
      case GameBoy => 144
      case Gba => 160
    }
  }

  /** The native resolutions: Game Boy 160x144, Game Boy Advance 240x160. */
  lemma NativeResolutions()
    ensures GameBoy.Width() == 160 && GameBoy.Height() == 144
    ensures Gba.Width() == 240 && Gba.Height() == 160
  {
  }

  /** Lower-cases one character; only the ASCII letters A-Z are folded. */
  function LowerChar(c: char): (d: char)
  {
    if 'A' <= c <= 'Z' then (c as int - 'A' as int + 'a' as int) as char else c
  }

  /** A name lower-cased character by character. */
  function ToLower(s: string): (r: string)
    ensures |r| == |s|
  {
    seq(|s|, i requires 0 <= i < |s| => LowerChar(s[i]))
  }

  /** `s` ends with `suffix`, compared character by character. */
  predicate EndsWith(s: string, suffix: string)
  {
    |suffix| <= |s| && forall i :: 0 <= i < |suffix| ==> s[|s| - |suffix| + i] == suffix[i]
  }

  /** Two names that are equal once letter case is ignored. */
  predicate EqualIgnoringCase(a: string, b: string)
  {
    |a| == |b| && forall i :: 0 <= i < |a| ==> LowerChar(a[i]) == LowerChar(b[i])
  }

  /**
   * The ROM type for a file name: `.gb` or `.gbc` is a Game Boy ROM, `.gba`
   * or `.agb` a Game Boy Advance ROM, in any letter case; anything else is
   * unrecognised (`None`, the source's `null`).
   */
  function Detect(name: string): (r: Option<RomType>)
    ensures r == Some(GameBoy) <==> EndsWith(ToLower(name), ".gb") || EndsWith(ToLower(name), ".gbc")
    ensures r == Some(Gba) <==> EndsWith(ToLower(name), ".gba") || EndsWith(ToLower(name), ".agb")
  {
    var lower := ToLower(name);
    SuffixCharacters(lower);
    if EndsWith(lower, ".gb") || EndsWith(lower, ".gbc") then
      Some(GameBoy)
    else if EndsWith(lower, ".gba") || EndsWith(lower, ".agb") then
      Some(Gba)
    else
      None
  }

  /** The characters that tell the four recognised extensions apart. */
  lemma SuffixCharacters(s: string)
    ensures EndsWith(s, ".gb") ==> s[|s| - 3] == '.' && s[|s| - 1] == 'b'
    ensures EndsWith(s, ".gbc") ==> s[|s| - 1] == 'c'
    ensures EndsWith(s, ".gba") ==> s[|s| - 1] == 'a'
    ensures EndsWith(s, ".agb") ==> s[|s| - 3] == 'a' && s[|s| - 1] == 'b'
  {
    if EndsWith(s, ".gb") {
      assert s[|s| - 3 + 0] == ".gb"[0] && s[|s| - 3 + 2] == ".gb"[2];
    }
    if EndsWith(s, ".gbc") {
      assert s[|s| - 4 + 3] == ".gbc"[3];
    }
    if EndsWith(s, ".gba") {
      assert s[|s| - 4 + 3] == ".gba"[3];
    }
    if EndsWith(s, ".agb") {
      assert s[|s| - 4 + 1] == ".agb"[1] && s[|s| - 4 + 3] == ".agb"[3];
    }
  }

  /** Lower-casing twice is lower-casing once. */
  lemma ToLowerIdempotent(s: string)
    ensures ToLower(ToLower(s)) == ToLower(s)
  {
  }

  /** Names that differ only in letter case are classified identically. */
  lemma DetectIgnoresCase(a: string, b: string)
    requires EqualIgnoringCase(a, b)
    ensures Detect(a) == Detect(b)
  {
    assert ToLower(a) == ToLower(b);
  }

  /** Example: `x.gba` is a Game Boy Advance ROM, not mistaken for `.gb`. */
  lemma DetectGbaExample()
    ensures Detect("x.gba") == Some(Gba)
  {
    assert ToLower("x.gba") == "x.gba";
    assert EndsWith("x.gba", ".gba");
  }

  /** Example: an upper-case `.GB` is a Game Boy ROM. */
  lemma DetectUpperCaseExample()
    ensures Detect("Tetris.GB") == Some(GameBoy)
  {
    assert ToLower("Tetris.GB") == "tetris.gb";
    assert EndsWith("tetris.gb", ".gb");
  }

  /** Example: an unknown extension is not recognised. */
  lemma DetectUnknownExample()
    ensures Detect("notes.txt") == None
  {
    assert ToLower("notes.txt") == "notes.txt";
    SuffixCharacters("notes.txt");
  }
}
