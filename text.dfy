/** Optional values, for the fields and lookups that JavaScript leaves `undefined`. */
module Wrappers {

  datatype Option<+T> = None | Some(value: T) {

    /** `x || d` for a value that is either present or absent */
    function GetOr(default: T): T {
      match this
      case Some(v) => v
      case None => default
    }
  }
}

/**
  * The string primitives the engine uses: `String.prototype.includes`
  * and `String.prototype.trim`.
  */
module Text {

  /** `needle` occurs in `hay` starting at position `i`. */
  predicate OccursAt(hay: string, needle: string, i: nat) {
    i + |needle| <= |hay| && hay[i..i + |needle|] == needle
  }

  /** `hay.includes(needle)`: a substring test; the empty needle occurs everywhere. */
  function Includes(hay: string, needle: string): bool
    decreases |hay|
  {
    if needle <= hay then true
    else if |hay| == 0 then false
    else Includes(hay[1..], needle)
  }

  /** An occurrence at any position makes `Includes` hold. */
  lemma {:induction false} OccursIncludes(hay: string, needle: string, i: nat)
    requires OccursAt(hay, needle, i)
    ensures Includes(hay, needle)
    decreases i
  {
    if i == 0 {
      assert needle == hay[..|needle|];
    } else if !(needle <= hay) {
      assert hay[1..][i - 1..i - 1 + |needle|] == hay[i..i + |needle|];
      OccursIncludes(hay[1..], needle, i - 1);
    }
  }

  /** When `Includes` holds, the needle occurs at some position. */
  lemma {:induction false} IncludesOccurs(hay: string, needle: string)
    requires Includes(hay, needle)
    ensures exists i: nat :: OccursAt(hay, needle, i)
    decreases |hay|
  {
    if needle <= hay {
      assert hay[0..|needle|] == needle;
      assert OccursAt(hay, needle, 0);
    } else {
      IncludesOccurs(hay[1..], needle);
      var i: nat :| OccursAt(hay[1..], needle, i);
      assert hay[1..][i..i + |needle|] == hay[i + 1..i + 1 + |needle|];
      assert OccursAt(hay, needle, i + 1);
    }
  }

  /** `Includes` holds exactly when the needle occurs at some position of the haystack. */
  lemma IncludesIff(hay: string, needle: string)
    ensures Includes(hay, needle) <==> exists i: nat :: OccursAt(hay, needle, i)
  {
    if Includes(hay, needle) {
      IncludesOccurs(hay, needle);
    }
    if exists i: nat :: OccursAt(hay, needle, i) {
      var i: nat :| OccursAt(hay, needle, i);
      OccursIncludes(hay, needle, i);
    }
  }

  /** A needle holding a character that is absent from the haystack does not occur in it. */
  lemma AbsentCharacter(hay: string, needle: string, k: nat)
    requires k < |needle| && needle[k] !in hay
    ensures !Includes(hay, needle)
  {
    IncludesIff(hay, needle);
    forall i: nat ensures !OccursAt(hay, needle, i) {
      if i + |needle| <= |hay| {
        assert hay[i..i + |needle|][k] == hay[i + k];
      }
    }
  }

  /** A needle longer than the haystack does not occur in it. */
  lemma LongerNeedle(hay: string, needle: string)
    requires |needle| > |hay|
    ensures !Includes(hay, needle)
  {
    IncludesIff(hay, needle);
  }

  /**
    * The code points ECMAScript's `trim` removes: WhiteSpace (tab, vertical
    * tab, form feed, space, no-break space, byte order mark and the Unicode
    * space separators) and LineTerminator (LF, CR, LS, PS).
    */
  predicate IsJsWhitespace(c: char) {
    var n := c as int;
    n == 0x09 || n == 0x0A || n == 0x0B || n == 0x0C || n == 0x0D || n == 0x20 ||
    n == 0xA0 || n == 0x1680 || (0x2000 <= n <= 0x200A) || n == 0x2028 || n == 0x2029 ||
    n == 0x202F || n == 0x205F || n == 0x3000 || n == 0xFEFF
  }

  /** Drops leading whitespace: the result is a suffix whose dropped part is all whitespace. */
  function TrimStart(s: string): (r: string)
    ensures |r| <= |s| && r == s[|s| - |r|..]
    ensures forall i :: 0 <= i < |s| - |r| ==> IsJsWhitespace(s[i])
    ensures r != [] ==> !IsJsWhitespace(r[0])
  {
    if |s| > 0 && IsJsWhitespace(s[0]) then TrimStart(s[1..]) else s
  }

  /** Drops trailing whitespace: the result is a prefix whose dropped part is all whitespace. */
  function TrimEnd(s: string): (r: string)
    ensures |r| <= |s| && r == s[..|r|]
    ensures forall i :: |r| <= i < |s| ==> IsJsWhitespace(s[i])
    ensures r != [] ==> !IsJsWhitespace(r[|r| - 1])
  {
    if |s| > 0 && IsJsWhitespace(s[|s| - 1]) then TrimEnd(s[..|s| - 1]) else s
  }

  /** `s.trim()` */
  function Trim(s: string): string {
    TrimEnd(TrimStart(s))
  }

  /** A string trims to the empty string exactly when every character of it is whitespace. */
  lemma TrimEmptyIff(s: string)
    ensures Trim(s) == "" <==> forall i :: 0 <= i < |s| ==> IsJsWhitespace(s[i])
  {
    var t := TrimStart(s);
    assert t != [] ==> t[0] == s[|s| - |t|];
    if Trim(s) == "" {
      assert t == [];
    }
  }
}
