/** Names of the archive entries the two image exports write. */
module EntryNames {
  import opened Common

  /** `name.replace(/\s+/g, '_')`: every maximal run of whitespace becomes a
      single underscore; every other character is kept, in order. */
  function Sanitize(s: string): string
    decreases |s|
  {
    if s == [] then []
    else if IsSpace(s[0]) then "_" + Sanitize(TrimStart(s))
    else [s[0]] + Sanitize(s[1..])
  }

  /** The sanitized name contains no whitespace and is never longer. */
  lemma {:induction false} SanitizeRemovesSpace(s: string)
    ensures NoSpace(Sanitize(s))
    ensures |Sanitize(s)| <= |s|
    decreases |s|
  {
    if s != [] {
      if IsSpace(s[0]) {
        SanitizeRemovesSpace(TrimStart(s));
        NoSpacePrepend('_', Sanitize(TrimStart(s)));
      } else {
        SanitizeRemovesSpace(s[1..]);
        NoSpacePrepend(s[0], Sanitize(s[1..]));
      }
    }
  }

  lemma NoSpacePrepend(c: char, s: string)
    requires !IsSpace(c) && NoSpace(s)
    ensures NoSpace([c] + s)
  {
    assert forall i :: 0 < i < |[c] + s| ==> ([c] + s)[i] == s[i - 1];
  }

  /** `${admissionNo}_${sanitized name}_ID_Card.png`. */
  function IdCardEntryName(admissionNo: string, name: string): string {
    admissionNo + "_" + Sanitize(name) + "_ID_Card.png"
  }

  /** `${name}_${admissionNo}.jpg` (the name is not sanitized here). */
  function ImageEntryName(name: string, admissionNo: string): string {
    name + "_" + admissionNo + ".jpg"
  }

  /** A string without whitespace is left as it is. */
  lemma {:induction false} SanitizeKeepsSpaceFree(s: string)
    requires NoSpace(s)
    ensures Sanitize(s) == s
    decreases |s|
  {
    if s != [] {
      SanitizeKeepsSpaceFree(s[1..]);
      assert s == [s[0]] + s[1..];
    }
  }

  /** Sanitizing twice is sanitizing once. */
  lemma SanitizeIdempotent(s: string)
    ensures Sanitize(Sanitize(s)) == Sanitize(s)
  {
    SanitizeRemovesSpace(s);
    SanitizeKeepsSpaceFree(Sanitize(s));
  }

  lemma {:induction false} TrimStartSkipsRun(w: string, t: string)
    requires AllSpace(w)
    requires t == [] || !IsSpace(t[0])
    ensures TrimStart(w + t) == t
    decreases |w|
  {
    if w == [] {
      assert w + t == t;
    } else {
      assert (w + t)[1..] == w[1..] + t;
      TrimStartSkipsRun(w[1..], t);
    }
  }

  /** A maximal whitespace run, however long, becomes exactly one underscore. */
  lemma WhitespaceRunBecomesOneUnderscore(w: string, t: string)
    requires w != [] && AllSpace(w)
    requires t == [] || !IsSpace(t[0])
    ensures Sanitize(w + t) == "_" + Sanitize(t)
  {
    TrimStartSkipsRun(w, t);
    assert (w + t)[0] == w[0];
  }

  /** A prefix free of a marker character is determined by where the marker
      first occurs. */
  lemma {:induction false} PrefixBeforeMarker(a1: string, t1: string, a2: string, t2: string, m: char)
    requires m !in a1 && m !in a2
    requires t1 != [] && t1[0] == m && t2 != [] && t2[0] == m
    requires a1 + t1 == a2 + t2
    ensures a1 == a2
  {
    var x := a1 + t1;
    if |a1| < |a2| {
      MarkerFirstAt(a1, t1, a2, t2, m);
    } else if |a2| < |a1| {
      MarkerFirstAt(a2, t2, a1, t1, m);
    }
    assert a1 == x[..|a1|];
    assert a2 == x[..|a2|];
  }

  lemma MarkerFirstAt(a1: string, t1: string, a2: string, t2: string, m: char)
    requires t1 != [] && t1[0] == m
    requires a1 + t1 == a2 + t2
    requires |a1| < |a2|
    ensures m in a2
  {
    assert a2[|a1|] == (a2 + t2)[|a1|] == (a1 + t1)[|a1|] == m;
  }

  /** Entry names identify the admission number when admission numbers contain
      no underscore: two equal names then come from the same admission number. */
  lemma IdCardNameDeterminesAdmissionNo(a1: string, n1: string, a2: string, n2: string)
    requires '_' !in a1 && '_' !in a2
    requires IdCardEntryName(a1, n1) == IdCardEntryName(a2, n2)
    ensures a1 == a2
  {
    var t1 := "_" + Sanitize(n1) + "_ID_Card.png";
    var t2 := "_" + Sanitize(n2) + "_ID_Card.png";
    AppendAssoc(a1, "_", Sanitize(n1), "_ID_Card.png");
    AppendAssoc(a2, "_", Sanitize(n2), "_ID_Card.png");
    PrefixBeforeMarker(a1, t1, a2, t2, '_');
  }

  lemma AppendAssoc(a: string, b: string, c: string, d: string)
    ensures a + b + c + d == a + (b + c + d)
  {
  }

  /** A single character that is not whitespace is left as it is. */
  lemma SanitizeChar(b: char)
    requires !IsSpace(b)
    ensures Sanitize([b]) == [b]
  {
    assert [b][1..] == [];
  }

  /** One space between two other characters becomes an underscore. */
  lemma SanitizeSpaceBetween(a: char, b: char)
    requires !IsSpace(a) && !IsSpace(b)
    ensures Sanitize([a, ' ', b]) == [a, '_', b]
  {
    calc {
      Sanitize([a, ' ', b]);
    == { assert [a, ' ', b] == [a] + [' ', b]; SanitizeCons(a, [' ', b]); }
      [a] + Sanitize([' ', b]);
    == { assert [' ', b] == [' '] + [b]; WhitespaceRunBecomesOneUnderscore([' '], [b]); }
      [a] + ("_" + Sanitize([b]));
    == { SanitizeChar(b); }
      [a] + ("_" + [b]);
    ==
      [a, '_', b];
    }
  }

  /** A character that is not whitespace is copied as it is. */
  lemma SanitizeCons(c: char, s: string)
    requires !IsSpace(c)
    ensures Sanitize([c] + s) == [c] + Sanitize(s)
  {
    assert ([c] + s)[1..] == s;
  }

  /** Without that restriction two students can share an entry name, so one
      card would shadow the other in the archive. */
  lemma IdCardNamesCanCollide()
    ensures IdCardEntryName("A_1", "B") == IdCardEntryName("A", "1 B")
  {
    SanitizeChar('B');
    SanitizeSpaceBetween('1', 'B');
    CollidingPrefixes();
    SameEntryName("A_1", "B", "A", "1 B", "B", "1_B");
  }

  lemma CollidingPrefixes()
    ensures "A_1" + "_" + "B" == "A" + "_" + "1_B"
  {
  }

  lemma SameEntryName(a1: string, n1: string, a2: string, n2: string, s1: string, s2: string)
    requires Sanitize(n1) == s1 && Sanitize(n2) == s2
    requires a1 + "_" + s1 == a2 + "_" + s2
    ensures IdCardEntryName(a1, n1) == IdCardEntryName(a2, n2)
  {
  }
}
