/** The rule that snapshot names must satisfy, and the order in which the
    snapshots directory reports its entries. */
module SnapshotNames {

  /** The most characters a snapshot name may have. */
  const MaxNameLength: nat := 100

  /** One character of the class [0-9a-zA-Z_-] (the trailing '-' is literal). */
  predicate IsNameChar(c: char) {
    ('0' <= c <= '9') || ('a' <= c <= 'z') || ('A' <= c <= 'Z') || c == '_' || c == '-'
  }

  /** A name is valid when it has at most 100 characters and every one of them
      is an ASCII letter, an ASCII digit, '_' or '-'. The empty name is valid. */
  predicate ValidName(name: string) {
    |name| <= MaxNameLength && forall i :: 0 <= i < |name| ==> IsNameChar(name[i])
  }

  /** Whether all of `s`, anchored at both ends, matches C{lo,hi}, where C is the
      name character class: the meaning of the bounded repetition read one
      character at a time, as a regular-expression matcher consumes it. */
  predicate MatchesRepeat(s: string, lo: nat, hi: nat)
    decreases |s|
  {
    if s == [] then lo == 0
    else 0 < hi && IsNameChar(s[0]) && MatchesRepeat(s[1..], if lo == 0 then 0 else lo - 1, hi - 1)
  }

  /** The pattern ^[0-9a-zA-Z_-]{0,100}$ that every new snapshot name must match. */
  predicate MatchesNamePattern(name: string) {
    MatchesRepeat(name, 0, MaxNameLength)
  }

  /** C{lo,hi} matches exactly the strings of lo to hi characters of the class. */
  lemma {:induction false} MatchesRepeatIff(s: string, lo: nat, hi: nat)
    ensures MatchesRepeat(s, lo, hi) <==>
            lo <= |s| <= hi && forall i :: 0 <= i < |s| ==> IsNameChar(s[i])
    decreases |s|
  {
    if s != [] && 0 < hi {
      var lo' := if lo == 0 then 0 else lo - 1;
      MatchesRepeatIff(s[1..], lo', hi - 1);
      if IsNameChar(s[0]) && forall i :: 0 <= i < |s[1..]| ==> IsNameChar(s[1..][i]) {
        forall i | 0 <= i < |s| ensures IsNameChar(s[i]) {
          if i > 0 { assert s[i] == s[1..][i - 1]; }
        }
      }
      if forall i :: 0 <= i < |s| ==> IsNameChar(s[i]) {
        assert IsNameChar(s[0]);
        forall i | 0 <= i < |s[1..]| ensures IsNameChar(s[1..][i]) {
          assert s[1..][i] == s[i + 1];
        }
      }
    }
  }

  /** The regular expression accepts a name exactly when ValidName holds. */
  lemma NamePatternIsValidName(name: string)
    ensures MatchesNamePattern(name) <==> ValidName(name)
  {
    MatchesRepeatIff(name, 0, MaxNameLength);
  }

  /** Names the pattern accepts: the empty name, and names mixing every kind
      of character of the class. */
  lemma NamePatternAccepts()
    ensures MatchesNamePattern("")
    ensures MatchesNamePattern("a-Z_9")
  {
    NamePatternIsValidName("");
    NamePatternIsValidName("a-Z_9");
    var s := "a-Z_9";
    assert IsNameChar(s[0]) && IsNameChar(s[1]) && IsNameChar(s[2]) && IsNameChar(s[3]) && IsNameChar(s[4]);
  }

  /** Names the pattern rejects: a space, a dot or a slash anywhere. */
  lemma NamePatternRejects()
    ensures !MatchesNamePattern("before upgrade")
    ensures !MatchesNamePattern("v1.2")
    ensures !MatchesNamePattern("../etc")
  {
    NamePatternIsValidName("before upgrade");
    assert !IsNameChar("before upgrade"[6]);
    NamePatternIsValidName("v1.2");
    assert !IsNameChar("v1.2"[2]);
    NamePatternIsValidName("../etc");
    assert !IsNameChar("../etc"[0]);
  }

  /** A 101st character is one too many, whatever the characters are. */
  lemma NamePatternRejectsLong(name: string)
    requires |name| > MaxNameLength
    ensures !MatchesNamePattern(name)
  {
    NamePatternIsValidName(name);
  }

  /** The order of directory entries as os.ReadDir reports them: Go compares
      names byte by byte in UTF-8, which is the order of their code points. */
  predicate Before(a: string, b: string)
    decreases |a|
  {
    if a == [] then b != []
    else b != [] && (a[0] < b[0] || (a[0] == b[0] && Before(a[1..], b[1..])))
  }

  lemma {:induction false} BeforeIrreflexive(a: string)
    ensures !Before(a, a)
    decreases |a|
  {
    if a != [] {
      BeforeIrreflexive(a[1..]);
    }
  }

  lemma {:induction false} BeforeTransitive(a: string, b: string, c: string)
    requires Before(a, b) && Before(b, c)
    ensures Before(a, c)
    decreases |a|
  {
    if a != [] && a[0] == b[0] && b[0] == c[0] {
      BeforeTransitive(a[1..], b[1..], c[1..]);
    }
  }

  lemma {:induction false} BeforeTotal(a: string, b: string)
    requires a != b
    ensures Before(a, b) || Before(b, a)
    decreases |a|
  {
    if a != [] && b != [] && a[0] == b[0] {
      assert a == [a[0]] + a[1..] && b == [b[0]] + b[1..];
      BeforeTotal(a[1..], b[1..]);
    }
  }
}
