/**
  Reading matrices and vectors from the text a user types: rows are
  separated by `;` and entries by `,` (`convertir_a_matriz` in
  Matriz_Por_Vector.py, and the same splitting in every other matrix tool).
  Turning one piece of text into a number (`float`, `int`, `Fraction`) is
  not modelled: it is the `parse` parameter.
*/
module MatrixText {
  import opened Common
  import opened Matrix

  /** Python's `str.isspace` for one character. */
  predicate IsWhitespace(ch: char)
  {
    var k := ch as int;
    (9 <= k <= 13) || (28 <= k <= 32) || k == 0x85 || k == 0xA0 || k == 0x1680
    || (0x2000 <= k <= 0x200A) || k == 0x2028 || k == 0x2029 || k == 0x202F
    || k == 0x205F || k == 0x3000
  }

  /** `not text.strip()`: the text is empty or only whitespace. */
  predicate IsBlank(text: string)
  {
    forall i :: 0 <= i < |text| ==> IsWhitespace(text[i])
  }

  /** The characters the pattern `[^\d,;.-]` keeps. */
  predicate IsAllowed(ch: char)
  {
    ('0' <= ch <= '9') || ch == ',' || ch == ';' || ch == '.' || ch == '-'
  }

  /** `re.sub(r'[^\d,;.-]', '', text)`: drops every character that is not allowed. */
  function Sanitize(text: string): (clean: string)
    ensures |clean| <= |text|
    ensures forall i :: 0 <= i < |clean| ==> IsAllowed(clean[i])
  {
    if |text| == 0 then ""
    else (if IsAllowed(text[0]) then [text[0]] else "") + Sanitize(text[1..])
  }

  /** Number of occurrences of `sep` in `s`. */
  function Count(s: string, sep: char): nat
  {
    if |s| == 0 then 0 else (if s[0] == sep then 1 else 0) + Count(s[1..], sep)
  }

  /** Python's `s.split(sep)` for a one-character separator. */
  function Split(s: string, sep: char): (parts: seq<string>)
    ensures |parts| >= 1
  {
    if |s| == 0 then [""]
    else
      var rest := Split(s[1..], sep);
      if s[0] == sep then [""] + rest else [[s[0]] + rest[0]] + rest[1..]
  }

  /** Python's `sep.join(parts)`. */
  function Join(parts: seq<string>, sep: char): string
    requires |parts| >= 1
  {
    if |parts| == 1 then parts[0] else parts[0] + [sep] + Join(parts[1..], sep)
  }

  /** The cells of a matrix text: `[fila.split(',') for fila in text.split(';')]`. */
  function Cells(text: string): (cells: seq<seq<string>>)
    ensures |cells| == |Split(text, ';')|
    ensures forall r :: 0 <= r < |cells| ==> cells[r] == Split(Split(text, ';')[r], ',')
  {
    var rows := Split(text, ';');
    seq(|rows|, r requires 0 <= r < |rows| => Split(rows[r], ','))
  }

  /** Parses every cell of one row, or fails on the first one that is not a number. */
  function ParseRow(row: seq<string>, parse: string -> Option<real>): (r: Option<Vector>)
    ensures r.Some? <==> forall c :: 0 <= c < |row| ==> parse(row[c]).Some?
    ensures r.Some? ==> |r.value| == |row| && forall c :: 0 <= c < |row| ==> r.value[c] == parse(row[c]).value
  {
    if |row| == 0 then Some([])
    else
      match (parse(row[0]), ParseRow(row[1..], parse))
      case (Some(x), Some(xs)) => Some([x] + xs)
      case _ => None
  }

  /** Parses every row of a grid of cells. */
  function ParseCells(cells: seq<seq<string>>, parse: string -> Option<real>): (r: Option<Matrix>)
    ensures r.Some? <==> forall i :: 0 <= i < |cells| ==> ParseRow(cells[i], parse).Some?
    ensures r.Some? ==> |r.value| == |cells| && forall i :: 0 <= i < |cells| ==> r.value[i] == ParseRow(cells[i], parse).value
  {
    if |cells| == 0 then Some([])
    else
      match (ParseRow(cells[0], parse), ParseCells(cells[1..], parse))
      case (Some(row), Some(rows)) => Some([row] + rows)
      case _ => None
  }

  /** `[[parse(x) for x in fila.split(',')] for fila in text.split(';')]`. */
  function ParseMatrix(text: string, parse: string -> Option<real>): (r: Option<Matrix>)
    ensures r.Some? ==> |r.value| == Count(text, ';') + 1
  {
    SplitCount(text, ';');
    ParseCells(Cells(text), parse)
  }

  /** `[parse(x) for x in text.split(',')]`. */
  function ParseVector(text: string, parse: string -> Option<real>): (r: Option<Vector>)
    ensures r.Some? ==> |r.value| == Count(text, ',') + 1
  {
    SplitCount(text, ',');
    ParseRow(Split(text, ','), parse)
  }

  datatype TextError = EmptyInput | InvalidFormat

  /** `convertir_a_matriz`: sanitise, then split; a cell that is not a number is an invalid format. */
  function ConvertToMatrix(text: string, parse: string -> Option<real>): (r: Result<Matrix, TextError>)
    ensures r.Ok? <==> ParseMatrix(Sanitize(text), parse).Some?
    ensures r.Ok? ==> |r.value| == Count(Sanitize(text), ';') + 1
    ensures r.Err? ==> r.error == InvalidFormat
  {
    match ParseMatrix(Sanitize(text), parse)
    case Some(m) => Ok(m)
    case None => Err(InvalidFormat)
  }

  /** `calcular_matriz`: blank text is refused before anything is parsed. */
  function CalculateMatrix(text: string, parse: string -> Option<real>): (r: Result<Matrix, TextError>)
    ensures IsBlank(text) <==> r == Err(EmptyInput)
    ensures !IsBlank(text) ==> r == ConvertToMatrix(text, parse)
  {
    if IsBlank(text) then Err(EmptyInput) else ConvertToMatrix(text, parse)
  }

  // ---------------------------------------------------------------- lemmas

  /** Filtering distributes over concatenation: it keeps the allowed characters in order. */
  lemma {:induction false} SanitizeAppend(s: string, t: string)
    ensures Sanitize(s + t) == Sanitize(s) + Sanitize(t)
  {
    if |s| > 0 {
      assert (s + t)[1..] == s[1..] + t;
      SanitizeAppend(s[1..], t);
    } else {
      assert s + t == t;
    }
  }

  /** Text made only of allowed characters is left as it is. */
  lemma {:induction false} SanitizeKeepsAllowed(s: string)
    requires forall i :: 0 <= i < |s| ==> IsAllowed(s[i])
    ensures Sanitize(s) == s
  {
    if |s| > 0 {
      SanitizeKeepsAllowed(s[1..]);
    }
  }

  /** Filtering twice is filtering once. */
  lemma SanitizeIdempotent(s: string)
    ensures Sanitize(Sanitize(s)) == Sanitize(s)
  {
    SanitizeKeepsAllowed(Sanitize(s));
  }

  /** Filtering keeps an allowed character and drops any other one. */
  lemma SanitizeOne(ch: char)
    ensures Sanitize([ch]) == if IsAllowed(ch) then [ch] else []
  {
    assert [ch][1..] == [];
  }

  /** Splitting yields one more piece than there are separators, and no piece holds a separator. */
  lemma {:induction false} SplitCount(s: string, sep: char)
    ensures |Split(s, sep)| == Count(s, sep) + 1
    ensures forall p, i :: 0 <= p < |Split(s, sep)| && 0 <= i < |Split(s, sep)[p]| ==> Split(s, sep)[p][i] != sep
  {
    if |s| > 0 {
      SplitCount(s[1..], sep);
      var rest := Split(s[1..], sep);
      if s[0] != sep {
        var parts := Split(s, sep);
        assert parts[0] == [s[0]] + rest[0];
        forall p, i | 0 <= p < |parts| && 0 <= i < |parts[p]| ensures parts[p][i] != sep {
          if p == 0 {
            if i > 0 { assert parts[0][i] == rest[0][i - 1]; }
          } else {
            assert parts[p] == rest[p];
          }
        }
      }
    }
  }

  /** Joining the pieces back with the separator gives the text again. */
  lemma {:induction false} JoinSplit(s: string, sep: char)
    ensures Join(Split(s, sep), sep) == s
  {
    if |s| > 0 {
      JoinSplit(s[1..], sep);
      var rest := Split(s[1..], sep);
      if s[0] == sep {
        assert Split(s, sep)[1..] == rest;
        assert s == [sep] + s[1..];
      } else {
        var parts := Split(s, sep);
        assert parts[1..] == rest[1..];
        if |rest| == 1 {
          assert s == [s[0]] + rest[0];
        } else {
          assert Join(rest, sep) == rest[0] + [sep] + Join(rest[1..], sep);
          assert s == [s[0]] + s[1..];
        }
      }
    }
  }

  /** Row `r` of a parsed matrix has one more cell than its text has commas. */
  lemma RowLength(text: string, parse: string -> Option<real>, r: nat)
    requires ParseMatrix(text, parse).Some?
    requires r < |ParseMatrix(text, parse).value|
    ensures |ParseMatrix(text, parse).value[r]| == Count(Split(text, ';')[r], ',') + 1
  {
    SplitCount(Split(text, ';')[r], ',');
  }
}
