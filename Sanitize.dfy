/**
 * `sanitize` (reddit_image_save.rb:96-105): the file name made from a post
 * title.  The title's UTF-8 bytes are filtered one at a time, keeping ASCII
 * space, digits and letters, and every kept space then becomes `_`.
 */
module Sanitize {
  import opened Text

  /** The bytes line 99 keeps: space, `0`-`9`, `A`-`Z`, `a`-`z`. */
  predicate IsRetained(c: byte)
  {
    c == 32 || (48 <= c <= 57) || (65 <= c <= 90) || (97 <= c <= 122)
  }

  /** The characters a sanitised name may contain. */
  predicate IsFileNameChar(c: char)
  {
    c == '_' || ('0' <= c <= '9') || ('A' <= c <= 'Z') || ('a' <= c <= 'z')
  }

  /** The string `sani` accumulates over the bytes `s` (lines 98-102). */
  function Retained(s: seq<byte>): (r: string)
    ensures |r| <= |s|
  {
    if s == [] then ""
    else
      var c := s[|s| - 1];
      Retained(s[..|s| - 1]) + (if IsRetained(c) then [c as char] else "")
  }

  /** `gsub!(' ', '_')` (line 103). */
  function ReplaceSpaces(s: string): (r: string)
    ensures |r| == |s|
    ensures forall i :: 0 <= i < |s| ==> r[i] == if s[i] == ' ' then '_' else s[i]
  {
    if s == "" then "" else [if s[0] == ' ' then '_' else s[0]] + ReplaceSpaces(s[1..])
  }

  /** The value `sanitize` returns for a string whose bytes are `s`. */
  function SanitizedName(s: seq<byte>): string
  {
    ReplaceSpaces(Retained(s))
  }

  /** The byte loop and `gsub!` of lines 96-105. */
  method Sanitize(name: string) returns (r: string)
    ensures r == SanitizedName(Utf8Encode(name))
  {
    var bytes := Utf8Encode(name);
    var sani := "";
    for i := 0 to |bytes|
      invariant sani == Retained(bytes[..i])
    {
      var c := bytes[i];
      assert bytes[..i + 1][..i] == bytes[..i];
      if c == 32 || (c >= 48 && c <= 57) || (c >= 65 && c <= 90) || (c >= 97 && c <= 122) {
        sani := sani + [c as char];
      }
    }
    assert bytes[..|bytes|] == bytes;
    r := ReplaceSpaces(sani);
  }

  // ---------------------------------------------------------------------
  // Properties

  /** What `sani` holds: only spaces, digits and letters. */
  lemma {:induction false} RetainedChars(s: seq<byte>)
    ensures forall i :: 0 <= i < |Retained(s)| ==> Retained(s)[i] == ' ' || IsFileNameChar(Retained(s)[i])
  {
    if s != [] {
      RetainedChars(s[..|s| - 1]);
    }
  }

  /** A sanitised name uses only `[A-Za-z0-9_]`. */
  lemma SanitizedNameChars(s: seq<byte>)
    ensures forall i :: 0 <= i < |SanitizedName(s)| ==> IsFileNameChar(SanitizedName(s)[i])
  {
    RetainedChars(s);
  }

  /** A sanitised name is never longer than the title's byte length. */
  lemma SanitizedNameLength(s: seq<byte>)
    ensures |SanitizedName(s)| <= |s|
  {
  }

  /** Appending one byte appends its contribution to `sani`. */
  lemma RetainedSnoc(s: seq<byte>, c: byte)
    ensures Retained(s + [c]) == Retained(s) + (if IsRetained(c) then [c as char] else "")
  {
    assert (s + [c])[..|s|] == s;
  }

  lemma {:induction false} RetainedConcat(s: seq<byte>, t: seq<byte>)
    ensures Retained(s + t) == Retained(s) + Retained(t)
  {
    if t != [] {
      var t' := t[..|t| - 1];
      var c := t[|t| - 1];
      assert t == t' + [c];
      assert s + t == (s + t') + [c];
      RetainedConcat(s, t');
      RetainedSnoc(s + t', c);
      RetainedSnoc(t', c);
    } else {
      assert s + t == s;
    }
  }

  lemma {:induction false} ReplaceSpacesConcat(s: string, t: string)
    ensures ReplaceSpaces(s + t) == ReplaceSpaces(s) + ReplaceSpaces(t)
  {
    if s != "" {
      assert (s + t)[1..] == s[1..] + t;
      ReplaceSpacesConcat(s[1..], t);
    }
  }

  /**
   * The name is built byte by byte: the bytes of a concatenation sanitise
   * to the concatenation of the sanitised parts.
   */
  lemma SanitizedNameConcat(s: seq<byte>, t: seq<byte>)
    ensures SanitizedName(s + t) == SanitizedName(s) + SanitizedName(t)
  {
    RetainedConcat(s, t);
    ReplaceSpacesConcat(Retained(s), Retained(t));
  }

  /** One byte: a space becomes `_`, another retained byte stays, the rest vanish. */
  lemma SanitizedByte(c: byte)
    ensures SanitizedName([c]) == if !IsRetained(c) then "" else if c == 32 then "_" else [c as char]
  {
    assert [c][..0] == [];
  }

  /** A non-ASCII character of a title leaves nothing in its file name. */
  lemma {:induction false} SanitizedNonAscii(c: char)
    requires c as int >= 0x80
    ensures SanitizedName(Utf8Char(c)) == ""
  {
    var bs := Utf8Char(c);
    if |bs| > 1 {
      var p := bs[..|bs| - 1];
      assert forall i :: 0 <= i < |p| ==> p[i] == bs[i];
      NoRetained(p);
    }
  }

  lemma {:induction false} NoRetained(s: seq<byte>)
    requires forall i :: 0 <= i < |s| ==> s[i] >= 0x80
    ensures Retained(s) == ""
  {
    if s != [] {
      NoRetained(s[..|s| - 1]);
    }
  }

  /** `"Cat!! #1"` sanitises to `"Cat_1"`. */
  lemma SanitizeExample(title: string)
    requires title == "Cat!! #1"
    ensures SanitizedName(Utf8Encode(title)) == "Cat_1"
  {
    AsciiEncode(title);
    var s: seq<byte> := [67, 97, 116, 33, 33, 32, 35, 49];
    assert Utf8Encode(title) == s;
    RetainedExample(s);
    ReplaceSpacesExample("Cat 1");
  }

  lemma RetainedExample(s: seq<byte>)
    requires s == [67, 97, 116, 33, 33, 32, 35, 49]
    ensures Retained(s) == "Cat 1"
  {
    RetainedSnoc([], 67);
    assert [] + [67] == s[..1];
    RetainedSnoc(s[..1], 97);
    assert s[..1] + [97] == s[..2];
    RetainedSnoc(s[..2], 116);
    assert s[..2] + [116] == s[..3];
    RetainedSnoc(s[..3], 33);
    assert s[..3] + [33] == s[..4];
    RetainedSnoc(s[..4], 33);
    assert s[..4] + [33] == s[..5];
    RetainedSnoc(s[..5], 32);
    assert s[..5] + [32] == s[..6];
    RetainedSnoc(s[..6], 35);
    assert s[..6] + [35] == s[..7];
    RetainedSnoc(s[..7], 49);
    assert s[..7] + [49] == s;
  }

  lemma ReplaceSpacesExample(s: string)
    requires s == "Cat 1"
    ensures ReplaceSpaces(s) == "Cat_1"
  {
  }

  /** An ASCII title's bytes are its character codes. */
  lemma {:induction false} AsciiEncode(s: string)
    requires forall i :: 0 <= i < |s| ==> s[i] as int < 0x80
    ensures |Utf8Encode(s)| == |s|
    ensures forall i :: 0 <= i < |s| ==> Utf8Encode(s)[i] == s[i] as int
  {
    if s != "" {
      var r := Utf8Encode(s[1..]);
      AsciiEncode(s[1..]);
      assert Utf8Encode(s) == [s[0] as int] + r;
    }
  }

  /**
   * Sanitising is not idempotent: `"a b"` becomes `"a_b"`, and that name
   * sanitised again loses its underscore.
   */
  lemma SanitizeNotIdempotent(title: string)
    requires title == "a b"
    ensures SanitizedName(Utf8Encode(title)) == "a_b"
    ensures SanitizedName(Utf8Encode(SanitizedName(Utf8Encode(title)))) == "ab"
  {
    AsciiEncode(title);
    var s: seq<byte> := [97, 32, 98];
    assert Utf8Encode(title) == s;
    SanitizeFirstPass(s);
    var name := SanitizedName(s);
    AsciiEncode(name);
    var s2: seq<byte> := [97, 95, 98];
    assert Utf8Encode(name) == s2;
    SanitizeSecondPass(s2);
  }

  lemma SanitizeFirstPass(s: seq<byte>)
    requires s == [97, 32, 98]
    ensures SanitizedName(s) == "a_b"
  {
    RetainedSnoc([], 97);
    assert [] + [97] == s[..1];
    RetainedSnoc(s[..1], 32);
    assert s[..1] + [32] == s[..2];
    RetainedSnoc(s[..2], 98);
    assert s[..2] + [98] == s;
    assert Retained(s) == "a b";
  }

  lemma SanitizeSecondPass(s: seq<byte>)
    requires s == [97, 95, 98]
    ensures SanitizedName(s) == "ab"
  {
    RetainedSnoc([], 97);
    assert [] + [97] == s[..1];
    RetainedSnoc(s[..1], 95);
    assert s[..1] + [95] == s[..2];
    RetainedSnoc(s[..2], 98);
    assert s[..2] + [98] == s;
    assert Retained(s) == "ab";
  }

}
