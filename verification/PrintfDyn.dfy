/** printf_dyn: formatting into a buffer that is enlarged until the text fits. */
module PrintfDyn {
  import opened Powers

  /** vsnprintf of a C99 library returns the needed length (section 7.19.6.12 of ISO/IEC
      9899:1999), an older one returns -1 if the text was truncated. */
  datatype Library = C99 | Old

  const FIRST_SIZE := 255

  /** The text that the format and its arguments stand for is `text`; at most `n`
      characters of the buffer may be written. */
  method Vsnprintf(buffer: array<char>, n: nat, text: string, lib: Library) returns (r: int)
    requires 0 < n <= buffer.Length
    modifies buffer
    ensures r == if |text| < n || lib.C99? then |text| else -1
    ensures |text| < n ==> buffer[..|text|] == text && buffer[|text|] == '\0'
    ensures forall i :: n <= i < buffer.Length ==> buffer[i] == old(buffer[i])
  {
    var i := 0;
    while i < |text| && i < n - 1
      invariant i <= |text| && i <= n - 1 && buffer[..i] == text[..i]
      invariant forall j :: n <= j < buffer.Length ==> buffer[j] == old(buffer[j])
    {
      buffer[i] := text[i];
      i := i + 1;
    }
    buffer[i] := '\0';
    assert text[..|text|] == text;
    r := if |text| < n || lib.C99? then |text| else -1;
  }

  /** The full text is returned, whatever the library does on truncation; a C99 library is
      called at most twice, an old one as often as the size has to be doubled. */
  method PrintfDyn(text: string, lib: Library) returns (buffer: array<char>, ghost calls: nat)
    ensures fresh(buffer) && |text| < buffer.Length
    ensures buffer[..|text|] == text && buffer[|text|] == '\0'
    ensures lib.C99? ==> calls <= 2
    ensures calls > 1 ==> FIRST_SIZE * (if lib.C99? then 1 else Pow2(calls - 2)) < |text|
  {
    buffer := new char[0];
    var size: nat := 0;
    var realsize: int := FIRST_SIZE;
    calls := 0;
    var again := true;
    while again
      invariant fresh(buffer)
      invariant again <==> realsize > size
      invariant calls == 0 ==> size == 0 && realsize == FIRST_SIZE
      invariant calls > 0 ==> buffer.Length == size + 1 && size >= FIRST_SIZE
      invariant again && calls > 0 ==> size < |text|
      invariant again && calls > 0 && lib.C99? ==> calls == 1 && realsize == |text| && size == FIRST_SIZE
      invariant again && calls > 0 && lib.Old? ==> realsize == 2 * size && size == FIRST_SIZE * Pow2(calls - 1)
      invariant !again ==> |text| <= size && buffer[..|text|] == text && buffer[|text|] == '\0'
      invariant !again && lib.C99? ==> calls <= 2
      invariant !again && calls > 1 ==> FIRST_SIZE * (if lib.C99? then 1 else Pow2(calls - 2)) < |text|
      decreases again, |text| - size
    {
      if size < realsize {
        buffer := new char[realsize + 1];
        size := realsize;
      }
      realsize := Vsnprintf(buffer, size + 1, text, lib);
      calls := calls + 1;
      if realsize == -1 {
        realsize := size * 2;
      }
      again := realsize > size;
    }
  }
}
