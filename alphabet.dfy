/**
  The alphabet of the codec: 128 readable Hangul syllables, written out row by
  row as the table in hangulNumber.rs groups them (one row per initial
  consonant), with the reverse lookup from a syllable back to its index.

  Distinctness of the 128 symbols is what makes the reverse lookup a bijection.
  It is proved row by row: inside a row the symbols are checked pairwise, and
  across rows they differ in their initial consonant, which Unicode's Hangul
  syllable composition (Unicode Standard, section 3.12) encodes in the code
  point as  (code - 0xAC00) / 588.
*/
module Alphabet {
  import Base128

  /** Number of symbols: one per digit of the positional code. */
  const SIZE: nat := Base128.BASE

  /** No symbol occurs twice. */
  predicate Distinct(s: seq<char>)
  {
    forall i, j | 0 <= i < j < |s| :: s[i] != s[j]
  }

  /** Index of the initial consonant of a precomposed Hangul syllable. */
  function Initial(c: char): int
  {
    ((c as int) - 0xAC00) / 588
  }

  /** Position of the first occurrence of c in s, or |s| when c does not occur. */
  function IndexOf(s: seq<char>, c: char): (i: nat)
    ensures i <= |s| && (i < |s| ==> s[i] == c)
  {
    if s == [] then 0 else if s[0] == c then 0 else 1 + IndexOf(s[1..], c)
  }

  /**
    A table the codec can use: 128 symbols, each first found at its own index,
    that is, no two equal (TableDistinct).
  */
  predicate IsTable(t: seq<char>)
  {
    |t| == SIZE && forall i | 0 <= i < |t| :: IndexOf(t, t[i]) == i
  }

  /** In a sequence without repeats every element is first found at its own index. */
  lemma {:induction false} DistinctIndexOf(s: seq<char>)
    requires Distinct(s)
    ensures forall i | 0 <= i < |s| :: IndexOf(s, s[i]) == i
  {
    if s != [] {
      DistinctIndexOf(s[1..]);
      forall i | 0 < i < |s|
        ensures IndexOf(s, s[i]) == i
      {
        assert s[1..][i - 1] == s[i];
      }
    }
  }

  /** The two ways of saying there are no repeats agree. */
  lemma TableDistinct(t: seq<char>)
    requires |t| == SIZE
    ensures IsTable(t) <==> Distinct(t)
  {
    if Distinct(t) {
      DistinctIndexOf(t);
    }
  }

  /** A row of the table: distinct syllables that share the initial consonant k. */
  predicate IsRow(row: seq<char>, k: int)
  {
    Distinct(row) && forall i | 0 <= i < |row| :: Initial(row[i]) == k
  }

  /** The ㄱ row (9 symbols). */
  const GIYEOK: seq<char> := ['가', '간', '강', '개', '거', '고', '공', '구', '금']

  /** The ㄴ row (9 symbols). */
  const NIEUN: seq<char> := ['나', '날', '남', '내', '너', '노', '눈', '늘', '니']

  /** The ㄷ row (9 symbols). */
  const DIGEUT: seq<char> := ['다', '달', '담', '대', '더', '도', '동', '두', '드']

  /** The ㄹ row (9 symbols). */
  const RIEUL: seq<char> := ['라', '람', '랑', '래', '러', '로', '루', '리', '림']

  /** The ㅁ row (9 symbols). */
  const MIEUM: seq<char> := ['마', '만', '말', '매', '머', '모', '무', '문', '미']

  /** The ㅂ row (9 symbols). */
  const BIEUP: seq<char> := ['바', '반', '방', '배', '보', '봄', '부', '비', '빈']

  /** The ㅅ row (10 symbols). */
  const SIOT: seq<char> := ['사', '산', '상', '새', '서', '선', '소', '송', '수', '시']

  /** The ㅇ row (10 symbols). */
  const IEUNG: seq<char> := ['아', '안', '양', '어', '연', '영', '오', '온', '우', '이']

  /** The ㅈ row (9 symbols). */
  const JIEUT: seq<char> := ['자', '잔', '장', '재', '저', '조', '주', '중', '지']

  /** The ㅊ row (9 symbols). */
  const CHIEUT: seq<char> := ['차', '찬', '창', '채', '천', '초', '춘', '충', '치']

  /** The ㅋ row (9 symbols). */
  const KIEUK: seq<char> := ['카', '칸', '코', '쿠', '크', '키', '캐', '케', '콩']

  /** The ㅌ row (9 symbols). */
  const TIEUT: seq<char> := ['타', '탄', '태', '터', '토', '통', '투', '트', '티']

  /** The ㅍ row (9 symbols). */
  const PIEUP: seq<char> := ['파', '판', '패', '포', '풍', '프', '피', '팔', '품']

  /** The ㅎ row (9 symbols). */
  const HIEUT: seq<char> := ['하', '한', '해', '허', '호', '홍', '화', '후', '히']

  /** The table `CHARS`: index i holds the symbol for the value i. */
  const CHARS: seq<char> :=
    GIYEOK +
    NIEUN +
    DIGEUT +
    RIEUL +
    MIEUM +
    BIEUP +
    SIOT +
    IEUNG +
    JIEUT +
    CHIEUT +
    KIEUK +
    TIEUT +
    PIEUP +
    HIEUT

  /** The ㄱ row has no repeated syllable, and each of them has initial consonant 0. */
  lemma GiyeokRow()
    ensures IsRow(GIYEOK, 0)
  {
  }

  /** The ㄴ row has no repeated syllable, and each of them has initial consonant 2. */
  lemma NieunRow()
    ensures IsRow(NIEUN, 2)
  {
  }

  /** The ㄷ row has no repeated syllable, and each of them has initial consonant 3. */
  lemma DigeutRow()
    ensures IsRow(DIGEUT, 3)
  {
  }

  /** The ㄹ row has no repeated syllable, and each of them has initial consonant 5. */
  lemma RieulRow()
    ensures IsRow(RIEUL, 5)
  {
  }

  /** The ㅁ row has no repeated syllable, and each of them has initial consonant 6. */
  lemma MieumRow()
    ensures IsRow(MIEUM, 6)
  {
  }

  /** The ㅂ row has no repeated syllable, and each of them has initial consonant 7. */
  lemma BieupRow()
    ensures IsRow(BIEUP, 7)
  {
  }

  /** The ㅅ row has no repeated syllable, and each of them has initial consonant 9. */
  lemma SiotRow()
    ensures IsRow(SIOT, 9)
  {
  }

  /** The ㅇ row has no repeated syllable, and each of them has initial consonant 11. */
  lemma IeungRow()
    ensures IsRow(IEUNG, 11)
  {
  }

  /** The ㅈ row has no repeated syllable, and each of them has initial consonant 12. */
  lemma JieutRow()
    ensures IsRow(JIEUT, 12)
  {
  }

  /** The ㅊ row has no repeated syllable, and each of them has initial consonant 14. */
  lemma ChieutRow()
    ensures IsRow(CHIEUT, 14)
  {
  }

  /** The ㅋ row has no repeated syllable, and each of them has initial consonant 15. */
  lemma KieukRow()
    ensures IsRow(KIEUK, 15)
  {
  }

  /** The ㅌ row has no repeated syllable, and each of them has initial consonant 16. */
  lemma TieutRow()
    ensures IsRow(TIEUT, 16)
  {
  }

  /** The ㅍ row has no repeated syllable, and each of them has initial consonant 17. */
  lemma PieupRow()
    ensures IsRow(PIEUP, 17)
  {
  }

  /** The ㅎ row has no repeated syllable, and each of them has initial consonant 18. */
  lemma HieutRow()
    ensures IsRow(HIEUT, 18)
  {
  }

  /** Appending a row whose initial consonant comes after all earlier ones keeps the table distinct. */
  lemma AppendRow(prefix: seq<char>, row: seq<char>, k: int)
    requires Distinct(prefix) && IsRow(row, k)
    requires forall i | 0 <= i < |prefix| :: Initial(prefix[i]) < k
    ensures Distinct(prefix + row)
    ensures forall i | 0 <= i < |prefix + row| :: Initial((prefix + row)[i]) <= k
  {
  }

  /** The table has 128 entries and no two of them are equal. */
  lemma CharsIsTable()
    ensures IsTable(CHARS)
  {
    GiyeokRow();
    NieunRow();
    DigeutRow();
    RieulRow();
    MieumRow();
    BieupRow();
    SiotRow();
    IeungRow();
    JieutRow();
    ChieutRow();
    KieukRow();
    TieutRow();
    PieupRow();
    HieutRow();
    var p := GIYEOK;
    AppendRow(p, NIEUN, 2); p := p + NIEUN;
    AppendRow(p, DIGEUT, 3); p := p + DIGEUT;
    AppendRow(p, RIEUL, 5); p := p + RIEUL;
    AppendRow(p, MIEUM, 6); p := p + MIEUM;
    AppendRow(p, BIEUP, 7); p := p + BIEUP;
    AppendRow(p, SIOT, 9); p := p + SIOT;
    AppendRow(p, IEUNG, 11); p := p + IEUNG;
    AppendRow(p, JIEUT, 12); p := p + JIEUT;
    AppendRow(p, CHIEUT, 14); p := p + CHIEUT;
    AppendRow(p, KIEUK, 15); p := p + KIEUK;
    AppendRow(p, TIEUT, 16); p := p + TIEUT;
    AppendRow(p, PIEUP, 17); p := p + PIEUP;
    AppendRow(p, HIEUT, 18); p := p + HIEUT;
    DistinctIndexOf(CHARS);
  }

  /** The symbols of a table, each with its index: the `reverse_map` that `new` builds from `CHARS`. */
  ghost function ReverseOf(t: seq<char>): (m: map<char, nat>)
    requires IsTable(t)
    ensures forall i | 0 <= i < |t| :: t[i] in m && m[t[i]] == i
    ensures forall c | c in m :: m[c] < |t| && t[m[c]] == c
  {
    map i | 0 <= i < |t| :: t[i] := i
  }

  /** A symbol has an index exactly when it occurs in the table. */
  lemma ReverseOfKeys(t: seq<char>, c: char)
    requires IsTable(t)
    ensures c in ReverseOf(t) <==> c in t
  {
    if c in t {
      var i :| 0 <= i < |t| && t[i] == c;
    }
  }
}
