/** Whatever text it reads, the parser only makes canonical arguments. Together with the round trip
    this shows that canonical form is not just sufficient but necessary. */
module ParserOutput {
  import opened ProgTypes
  import opened Numbers
  import opened DataText
  import opened Validation
  import opened CanonicalForm
  import opened Printer
  import opened Parser
  import opened TextLemmas
  import opened TextRoundTrip

  /** Every bound name stands for a result that has already been made. */
  ghost predicate VarsBelow(st: Tables) { forall n :: n in st.vars ==> st.vars[n] < st.next }

  /** The declared type, or the ANY pointer that replaces it. */
  predicate TypeFits(tgt: Target, t: Type, typ: Type) {
    typ == t || ((t.PtrT? || t.VmaT?) && typ == MakeAnyPtrType(tgt, t.c.size, t.c.fld))
  }

  ghost predicate Good(tgt: Target, t: Type, st: Tables, o: Outcome<Arg>) {
    o.Ok? ==>
      && Canonical(tgt, o.value, t) && TypeFits(tgt, t, o.value.typ)
      && VarsBelow(o.st) && st.next <= o.st.next
      && (o.value.ResultArg? ==> o.value.id < o.st.next)
  }

  ghost predicate GoodSeq(tgt: Target, types: seq<Type>, st: Tables, o: Outcome<seq<Arg>>) {
    o.Ok? ==>
      && |o.value| <= |types| && CanonicalSeq(tgt, o.value, types[..|o.value|])
      && VarsBelow(o.st) && st.next <= o.st.next
  }

  ghost predicate AllWellFormed(tgt: Target, types: seq<Type>) {
    forall i :: 0 <= i < |types| ==> WellFormedType(tgt, types[i])
  }

  // ---- defaults ----

  lemma {:induction false} DefaultCanonical(tgt: Target, t: Type, n: nat)
    requires WellFormed(tgt) && WellFormedType(tgt, t)
    ensures Canonical(tgt, DefaultArg(tgt, t, n).0, t)
    ensures DefaultArg(tgt, t, n).0.ResultArg? ==> DefaultArg(tgt, t, n).0.id < DefaultArg(tgt, t, n).1
    decreases 2 * DefaultDepth(tgt, t), t, 0
  {
    match t
    case ArrayT(_, elem, fixedLen) =>
      if fixedLen.Some? {
        DefaultCopiesCanonical(tgt, elem, fixedLen.value, n);
      } else {
        assert Repeat(elem, 0) == [];
      }
    case PtrT(c, elem) =>
      if !c.optional {
        DefaultCanonical(tgt, elem, n);
      }
    case StructT(_, key) =>
      assert WellFormedDesc(tgt, tgt.structs[key]);
      DefaultFieldsCanonical(tgt, key, tgt.structs[key].fields, n);
    case UnionT(_, key) =>
      var fields := tgt.structs[key].fields;
      assert WellFormedDesc(tgt, tgt.structs[key]);
      assert fields[..1][0] == fields[0];
      DefaultFieldsCanonical(tgt, key, fields[..1], n);
    case _ =>
  }

  lemma {:induction false} DefaultCopiesCanonical(tgt: Target, elem: Type, k: nat, n: nat)
    requires WellFormed(tgt) && WellFormedType(tgt, elem)
    ensures CanonicalSeq(tgt, DefaultCopies(tgt, elem, k, n).0, Repeat(elem, k))
    decreases 2 * DefaultDepth(tgt, elem), elem, k + 1
  {
    if k > 0 {
      DefaultCanonical(tgt, elem, n);
      DefaultCopiesCanonical(tgt, elem, k - 1, DefaultArg(tgt, elem, n).1);
      assert Repeat(elem, k)[1..] == Repeat(elem, k - 1);
    }
  }

  lemma {:induction false} DefaultFieldsCanonical(tgt: Target, key: StructKey, fields: seq<Type>, n: nat)
    requires WellFormed(tgt) && key in tgt.structs && AllWellFormed(tgt, fields)
    requires forall i :: 0 <= i < |fields| ==> Bounded(tgt, key, fields[i])
    ensures CanonicalSeq(tgt, DefaultFields(tgt, key, fields, n).0, fields)
    decreases 2 * tgt.rank[key] + 1, 0, |fields|
  {
    if fields != [] {
      DefaultCanonical(tgt, fields[0], n);
      DefaultFieldsCanonical(tgt, key, fields[1..], DefaultArg(tgt, fields[0], n).1);
    }
  }

  lemma {:induction false} DefaultArgsCanonical(tgt: Target, types: seq<Type>, n: nat)
    requires WellFormed(tgt) && AllWellFormed(tgt, types)
    ensures CanonicalSeq(tgt, DefaultArgs(tgt, types, n).0, types) && DefaultArgs(tgt, types, n).1 >= n
  {
    if types != [] {
      DefaultCanonical(tgt, types[0], n);
      DefaultArgsCanonical(tgt, types[1..], DefaultArg(tgt, types[0], n).1);
    }
  }

  lemma DefaultGood(tgt: Target, t: Type, r: string, st: Tables)
    requires WellFormed(tgt) && WellFormedType(tgt, t) && VarsBelow(st)
    ensures Good(tgt, t, st, Default(tgt, t, r, st))
  {
    DefaultCanonical(tgt, t, st.next);
  }

  // ---- sequences ----

  lemma {:induction false} CanonicalAppend(tgt: Target, a: seq<Arg>, b: seq<Arg>, ta: seq<Type>, tb: seq<Type>)
    requires CanonicalSeq(tgt, a, ta) && CanonicalSeq(tgt, b, tb)
    ensures CanonicalSeq(tgt, a + b, ta + tb)
  {
    if a == [] {
      assert a + b == b && ta + tb == tb;
    } else {
      assert (a + b)[1..] == a[1..] + b && (ta + tb)[1..] == ta[1..] + tb;
      CanonicalAppend(tgt, a[1..], b, ta[1..], tb);
    }
  }

  lemma {:induction false} CanonicalPrefix(tgt: Target, a: seq<Arg>, t: Type, n: nat)
    requires CanonicalSeq(tgt, a, Repeat(t, |a|)) && n <= |a|
    ensures CanonicalSeq(tgt, a[..n], Repeat(t, n))
  {
    if n > 0 {
      assert Repeat(t, |a|)[1..] == Repeat(t, |a[1..]|) && Repeat(t, n)[1..] == Repeat(t, n - 1);
      CanonicalPrefix(tgt, a[1..], t, n - 1);
      assert a[..n][1..] == a[1..][..n - 1];
    }
  }

  // ---- leaves ----

  lemma {:induction false} HexDecodeShorter(s: string)
    requires HexDecode(s).Some?
    ensures |HexDecode(s).value| <= |s|
  {
    if s != [] {
      HexDecodeShorter(s[2..]);
    }
  }

  lemma {:induction false} UnescapeShorter(r: string)
    requires Unescape(r).Some?
    ensures |Unescape(r).value.0| <= |r|
    decreases |r|
  {
    if r != [] && r[0] != '\'' && r[0] != ZERO_BYTE {
      UnescapeShorter(r[UnescapeByte(r).value.1..]);
    }
  }

  /** A literal denotes no more bytes than it has characters. */
  lemma ParseDataShorter(r: string)
    requires ParseData(r).Some?
    ensures |ParseData(r).value.0| <= |r|
  {
    if r[0] == '\"' {
      var r1 := Expect(r, '\"').value;
      var id := if r1[0] == '\"' then Some(("", r1)) else Ident(r1);
      HexDecodeShorter(id.value.0);
    } else {
      UnescapeShorter(r[1..]);
    }
  }

  lemma ParseStringGood(tgt: Target, strict: bool, t: Type, r: string, st: Tables)
    requires WellFormed(tgt) && WellFormedType(tgt, t) && VarsBelow(st) && |r| < MAX_LINE
    requires r != [] && (r[0] == '\"' || r[0] == '\'')
    ensures Good(tgt, t, st, ParseString(tgt, strict, t, r, st))
  {
    var o := ParseString(tgt, strict, t, r, st);
    if !t.BufferT? {
      RecoverGood(tgt, strict, t, r, st);
    } else if o.Ok? {
      ParseDataShorter(r);
    }
  }

  lemma RecoverGood(tgt: Target, strict: bool, t: Type, r: string, st: Tables)
    requires WellFormed(tgt) && WellFormedType(tgt, t) && VarsBelow(st)
    ensures Good(tgt, t, st, Recover(tgt, strict, t, r, st))
  {
    DefaultGood(tgt, t, EatExcessive(true, r, 0, 0, 0), st);
  }

  lemma ParseIntGood(tgt: Target, strict: bool, t: Type, r: string, st: Tables)
    requires WellFormed(tgt) && WellFormedType(tgt, t) && !IsPad(t) && VarsBelow(st)
    ensures Good(tgt, t, st, ParseInt(tgt, strict, t, r, st))
  {
    var id := Ident(r);
    if id.Some? {
      RecoverGood(tgt, strict, t, id.value.1, st);
      var v := ParseUint(id.value.0);
      if v.Some? {
        var index := Neg64(v.value) % |tgt.specialPointers|;
        assert Neg64(Neg64(index)) == index;
      }
    }
  }

  lemma ParseResGood(tgt: Target, strict: bool, t: Type, r: string, st: Tables)
    requires WellFormed(tgt) && WellFormedType(tgt, t) && VarsBelow(st)
    ensures Good(tgt, t, st, ParseRes(tgt, strict, t, r, st))
  {
    var id := Ident(r);
    var div := if id.Some? then OptionalNumber(id.value.1, '/', 0) else None;
    var add := if div.Some? then OptionalNumber(div.value.1, '+', 0) else None;
    if add.Some? {
      DefaultGood(tgt, t, add.value.1, st);
    }
  }

  lemma RoundDownAligned(v: nat, d: pos)
    ensures RoundDown(v, d) % d == 0 && 0 <= RoundDown(v, d) <= v
  {
    assert RoundDown(v, d) == (v / d) * d + 0;
    DivIs(v / d, d, 0);
  }

  lemma MaxMemAligned(tgt: Target)
    ensures MaxMem(tgt) % tgt.pageSize == 0
  {
    DivIs(tgt.numPages, tgt.pageSize, 0);
  }

  lemma ClampAligned(round: nat, page: nat, max: nat, p: pos)
    requires round % p == 0 && page % p == 0 && max % p == 0 && max >= p
    ensures var whole := if round == 0 then p else round;
            var vma := if whole > max then max else whole;
            var start := if page > max - vma then max - vma else page;
            start % p == 0 && vma % p == 0 && start + vma <= max
  {
    DivIs(1, p, 0);
    var whole := if round == 0 then p else round;
    var vma := if whole > max then max else whole;
    SubMod(max, vma, p);
  }

  /** A sized region is page-aligned and lies inside memory. */
  lemma RegionIsAligned(tgt: Target, addr: u64, size: u64)
    requires MaxMem(tgt) >= tgt.pageSize
    ensures var (start, vma) := Region(tgt, addr, size);
            start % tgt.pageSize == 0 && vma % tgt.pageSize == 0 && start + vma <= MaxMem(tgt)
  {
    var up := (size + tgt.pageSize - 1) % TWO64;
    RoundDownAligned(up, tgt.pageSize);
    RoundDownAligned(addr, tgt.pageSize);
    MaxMemAligned(tgt);
    hide RoundDown, MaxMem;
    ClampAligned(RoundDown(up, tgt.pageSize), RoundDown(addr, tgt.pageSize), MaxMem(tgt), tgt.pageSize);
  }

  lemma ParseAddrAligned(tgt: Target, r: string)
    requires MaxMem(tgt) >= tgt.pageSize
    ensures var o := ParseAddr(tgt, r);
            o.Some? ==> o.value.1 == 0 || (o.value.0 % tgt.pageSize == 0 && o.value.1 % tgt.pageSize == 0
                                           && o.value.0 + o.value.1 <= MaxMem(tgt))
  {
    forall addr: u64, size: u64
      ensures var (start, vma) := Region(tgt, addr, size);
              start % tgt.pageSize == 0 && vma % tgt.pageSize == 0 && start + vma <= MaxMem(tgt)
    {
      RegionIsAligned(tgt, addr, size);
    }
  }

  lemma MakePointerGood(tgt: Target, strict: bool, t: Type, address: u64, vmaSize: u64, r: string, st: Tables)
    requires WellFormed(tgt) && WellFormedType(tgt, t) && VarsBelow(st) && (t.PtrT? || t.VmaT?)
    requires vmaSize == 0 || (vmaSize % tgt.pageSize == 0 && address + vmaSize <= MaxMem(tgt))
    ensures Good(tgt, t, st, MakePointer(tgt, strict, t, address, vmaSize, r, st))
  {
    RoundDownAligned(address, tgt.pageSize);
    if t.PtrT? {
      DefaultGood(tgt, t.elem, r, st);
      AnyIsMade(tgt, t);
    }
  }

  lemma AnyIsMade(tgt: Target, t: Type)
    requires WellFormedType(tgt, t) && t.PtrT?
    ensures IsAnyPtr(t) ==> t == MakeAnyPtrType(tgt, CommonOf(tgt, t).size, FieldName(t))
  {
  }

  // ---- trees ----

  lemma {:induction false} ParseArgGood(tgt: Target, strict: bool, t: Type, r: string, st: Tables)
    requires WellFormed(tgt) && WellFormedType(tgt, t) && !IsPad(t) && VarsBelow(st) && |r| < MAX_LINE
    ensures Good(tgt, t, st, ParseArg(tgt, strict, t, r, st))
    decreases |r|, 2
  {
    if r != [] && r[0] == '<' {
      var r1 := Expect(r, '<');
      var id := if r1.Some? then Ident(r1.value) else None;
      var r2 := if id.Some? then ExpectWord(id.value.1, "=>") else None;
      if r2.Some? {
        ParseImplGood(tgt, strict, t, r2.value, st);
      }
    } else {
      ParseImplGood(tgt, strict, t, r, st);
    }
  }

  lemma {:induction false} ParseImplGood(tgt: Target, strict: bool, t: Type, r: string, st: Tables)
    requires WellFormed(tgt) && WellFormedType(tgt, t) && !IsPad(t) && VarsBelow(st) && |r| < MAX_LINE
    ensures Good(tgt, t, st, ParseImpl(tgt, strict, t, r, st))
    decreases |r|, 1
  {
    hide WellFormed, Good, VarsBelow;
    if r == [] {
      FailGood(tgt, t, st);
    } else if r[0] == '0' {
      ParseIntGood(tgt, strict, t, r, st);
    } else if r[0] == 'r' {
      ParseResGood(tgt, strict, t, r, st);
    } else if r[0] == '&' {
      ParsePointerGood(tgt, strict, t, r, st);
    } else if r[0] == '\"' || r[0] == '\'' {
      ParseStringGood(tgt, strict, t, r, st);
    } else if r[0] == '{' {
      ParseStructGood(tgt, strict, t, r, st);
    } else if r[0] == '[' {
      ParseArrayGood(tgt, strict, t, r, st);
    } else if r[0] == '@' {
      ParseUnionGood(tgt, strict, t, r, st);
    } else if r[0] == 'n' && ExpectWord(r, "nil").Some? {
      DefaultGood(tgt, t, ExpectWord(r, "nil").value, st);
    } else {
      FailGood(tgt, t, st);
    }
  }

  lemma FailGood(tgt: Target, t: Type, st: Tables)
    ensures Good(tgt, t, st, Fail)
  {
  }

  lemma {:induction false} ParsePointerGood(tgt: Target, strict: bool, t: Type, r: string, st: Tables)
    requires WellFormed(tgt) && WellFormedType(tgt, t) && VarsBelow(st) && |r| < MAX_LINE && r != [] && r[0] == '&'
    ensures Good(tgt, t, st, ParsePointer(tgt, strict, t, r, st))
    decreases |r|, 0
  {
    if !t.PtrT? && !t.VmaT? {
      RecoverGood(tgt, strict, t, r, st);
    } else {
      PageInMemory(tgt);
      hide WellFormed, Good, VarsBelow, ParsePointee, MakePointer;
      var r1 := Expect(r, '&');
      var addr := if r1.Some? then ParseAddr(tgt, r1.value) else None;
      if addr.None? || addr.value.2 == [] {
        FailGood(tgt, t, st);
      } else {
        ParseAddrAligned(tgt, r1.value);
        var (address, vmaSize, r2) := addr.value;
        if r2[0] != '=' {
          MakePointerGood(tgt, strict, t, address, vmaSize, r2, st);
        } else {
          var r3 := Expect(r2, '=');
          if r3.None? || r3.value == [] {
            FailGood(tgt, t, st);
          } else {
            ParsePointeeGood(tgt, strict, t, address, vmaSize, r3.value, st);
          }
        }
      }
    }
  }

  lemma PageInMemory(tgt: Target)
    requires WellFormed(tgt)
    ensures MaxMem(tgt) >= tgt.pageSize
  {
    assert tgt.numPages > 0;
  }

  lemma AnyArrayWellFormed(tgt: Target)
    requires WellFormed(tgt)
    ensures WellFormedType(tgt, ANY_ARRAY)
  {
  }

  lemma {:induction false} ParsePointeeGood(tgt: Target, strict: bool, t: Type, address: u64, vmaSize: u64, r: string,
                                            st: Tables)
    requires WellFormed(tgt) && WellFormedType(tgt, t) && VarsBelow(st) && |r| < MAX_LINE && (t.PtrT? || t.VmaT?)
      && r != []
    requires vmaSize == 0 || (vmaSize % tgt.pageSize == 0 && address + vmaSize <= MaxMem(tgt))
    ensures Good(tgt, t, st, ParsePointee(tgt, strict, t, address, vmaSize, r, st))
    decreases |r|, 3
  {
    hide WellFormed, ExpectWord, Region;
    if r[0] == 'A' {
      var r1 := ExpectWord(r, "ANY=");
      if r1.Some? {
        AnyArrayWellFormed(tgt);
        ParseArgGood(tgt, strict, ANY_ARRAY, r1.value, st);
      }
    } else if t.VmaT? {
      var r1 := ExpectWord(r, "nil");
      if r1.Some? {
        MakePointerGood(tgt, strict, t, address, vmaSize, r1.value, st);
      }
    } else {
      ParseArgGood(tgt, strict, t.elem, r, st);
      AnyIsMade(tgt, t);
    }
  }

  lemma {:induction false} ParseFieldsGood(tgt: Target, strict: bool, types: seq<Type>, close: char, r: string,
                                           st: Tables)
    requires WellFormed(tgt) && AllWellFormed(tgt, types) && VarsBelow(st) && |r| < MAX_LINE
    ensures GoodSeq(tgt, types, st, ParseFields(tgt, strict, types, close, r, st))
    decreases |r|, 3, |types|
  {
    if r != [] && r[0] != close && types != [] {
      if IsPad(types[0]) {
        if close != ')' {
          ParseFieldsGood(tgt, strict, types[1..], close, r, st);
          GoodSeqCons(tgt, types, ConstArg(types[0], 0), st, ParseFields(tgt, strict, types[1..], close, r, st));
        }
      } else {
        ParseArgGood(tgt, strict, types[0], r, st);
        var a := ParseArg(tgt, strict, types[0], r, st);
        if a.Ok? && a.rest != [] {
          var r1 := if a.rest[0] == close then Some(a.rest) else Expect(a.rest, ',');
          if r1.Some? {
            ParseFieldsGood(tgt, strict, types[1..], close, r1.value, a.st);
            GoodSeqCons(tgt, types, a.value, a.st, ParseFields(tgt, strict, types[1..], close, r1.value, a.st));
          }
        }
      }
    }
  }

  lemma GoodSeqCons(tgt: Target, types: seq<Type>, a: Arg, st: Tables, o: Outcome<seq<Arg>>)
    requires types != [] && Canonical(tgt, a, types[0]) && GoodSeq(tgt, types[1..], st, o)
    ensures o.Ok? ==> GoodSeq(tgt, types, st, o.(value := [a] + o.value))
  {
    if o.Ok? {
      var v := [a] + o.value;
      assert v[1..] == o.value;
      assert types[..|v|][1..] == types[1..][..|o.value|];
    }
  }

  lemma {:induction false} ParseElemsGood(tgt: Target, strict: bool, t: Type, r: string, st: Tables)
    requires WellFormed(tgt) && WellFormedType(tgt, t) && !IsPad(t) && VarsBelow(st) && |r| < MAX_LINE
    ensures var o := ParseElems(tgt, strict, t, r, st);
            o.Ok? ==> CanonicalSeq(tgt, o.value, Repeat(t, |o.value|)) && VarsBelow(o.st) && st.next <= o.st.next
    decreases |r|, 3, 0
  {
    if r != [] && r[0] != ']' {
      ParseArgGood(tgt, strict, t, r, st);
      var a := ParseArg(tgt, strict, t, r, st);
      if a.Ok? && a.rest != [] {
        var r1 := if a.rest[0] == ']' then Some(a.rest) else Expect(a.rest, ',');
        if r1.Some? {
          ParseElemsGood(tgt, strict, t, r1.value, a.st);
          var o := ParseElems(tgt, strict, t, r1.value, a.st);
          if o.Ok? {
            assert Repeat(t, |o.value| + 1)[1..] == Repeat(t, |o.value|);
            assert ([a.value] + o.value)[1..] == o.value;
          }
        }
      }
    }
  }

  lemma RecoverGroupGood(tgt: Target, strict: bool, t: Type, r: string, close: char, st: Tables)
    requires WellFormed(tgt) && WellFormedType(tgt, t) && VarsBelow(st)
    ensures Good(tgt, t, st, RecoverGroup(tgt, strict, t, r, close, st))
  {
    var r1 := Expect(EatExcessive(false, r, 0, 0, 0), close);
    if r1.Some? {
      DefaultGood(tgt, t, r1.value, st);
    }
  }

  lemma FinishStructGood(tgt: Target, strict: bool, t: Type, st: Tables, o: Outcome<seq<Arg>>)
    requires WellFormed(tgt) && t.StructT? && AllWellFormed(tgt, Desc(tgt, t.key).fields)
    requires GoodSeq(tgt, Desc(tgt, t.key).fields, st, o)
    ensures Good(tgt, t, st, FinishStruct(tgt, strict, t, o))
  {
    var fields := Desc(tgt, t.key).fields;
    if o.Ok? {
      var n := |o.value|;
      DefaultArgsCanonical(tgt, fields[n..], o.st.next);
      CanonicalAppend(tgt, o.value, DefaultArgs(tgt, fields[n..], o.st.next).0, fields[..n], fields[n..]);
      assert fields[..n] + fields[n..] == fields;
    }
  }

  lemma {:induction false} ParseStructGood(tgt: Target, strict: bool, t: Type, r: string, st: Tables)
    requires WellFormed(tgt) && WellFormedType(tgt, t) && VarsBelow(st) && |r| < MAX_LINE && r != []
    ensures Good(tgt, t, st, ParseStruct(tgt, strict, t, r, st))
    decreases |r|, 0
  {
    var r1 := Expect(r, '{');
    if r1.Some? {
      if !t.StructT? {
        RecoverGroupGood(tgt, strict, t, r1.value, '}', st);
      } else {
        var fields := Desc(tgt, t.key).fields;
        assert WellFormedDesc(tgt, tgt.structs[t.key]);
        hide WellFormed, Good, GoodSeq, FinishStruct, ParseFields;
        ParseFieldsGood(tgt, strict, fields, '}', r1.value, st);
        FinishStructGood(tgt, strict, t, st, ParseFields(tgt, strict, fields, '}', r1.value, st));
      }
    }
  }

  /** Elements cut or filled up to a fixed number. */
  lemma FillGood(tgt: Target, elem: Type, args: seq<Arg>, k: nat, next: nat)
    requires WellFormed(tgt) && WellFormedType(tgt, elem) && CanonicalSeq(tgt, args, Repeat(elem, |args|))
    ensures |args| >= k ==> CanonicalSeq(tgt, args[..k], Repeat(elem, k))
    ensures |args| < k ==> var d := DefaultArgs(tgt, Repeat(elem, k - |args|), next);
                           CanonicalSeq(tgt, args + d.0, Repeat(elem, k)) && d.1 >= next
  {
    var n := |args|;
    if n >= k {
      CanonicalPrefix(tgt, args, elem, k);
    } else {
      DefaultArgsCanonical(tgt, Repeat(elem, k - n), next);
      CanonicalAppend(tgt, args, DefaultArgs(tgt, Repeat(elem, k - n), next).0, Repeat(elem, n), Repeat(elem, k - n));
      assert Repeat(elem, n) + Repeat(elem, k - n) == Repeat(elem, k);
    }
  }

  lemma FinishArrayGood(tgt: Target, strict: bool, t: Type, st: Tables, o: Outcome<seq<Arg>>)
    requires WellFormed(tgt) && t.ArrayT? && WellFormedType(tgt, t.elem)
    requires o.Ok? ==> CanonicalSeq(tgt, o.value, Repeat(t.elem, |o.value|)) && VarsBelow(o.st) && st.next <= o.st.next
    ensures Good(tgt, t, st, FinishArray(tgt, strict, t, o))
  {
    if o.Ok? && t.fixedLen.Some? {
      FillGood(tgt, t.elem, o.value, t.fixedLen.value, o.st.next);
    }
  }

  lemma {:induction false} ParseArrayGood(tgt: Target, strict: bool, t: Type, r: string, st: Tables)
    requires WellFormed(tgt) && WellFormedType(tgt, t) && VarsBelow(st) && |r| < MAX_LINE && r != []
    ensures Good(tgt, t, st, ParseArray(tgt, strict, t, r, st))
    decreases |r|, 0
  {
    var r1 := Expect(r, '[');
    if r1.Some? {
      if !t.ArrayT? {
        RecoverGroupGood(tgt, strict, t, r1.value, ']', st);
      } else {
        hide WellFormed, Good, FinishArray, ParseElems;
        ParseElemsGood(tgt, strict, t.elem, r1.value, st);
        FinishArrayGood(tgt, strict, t, st, ParseElems(tgt, strict, t.elem, r1.value, st));
      }
    }
  }

  lemma UnionGood(tgt: Target, t: Type, opt: Type, name: string, st: Tables, o: Outcome<Arg>)
    requires t.UnionT? && FindField(Desc(tgt, t.key).fields, name) == Some(opt) && name != ""
    requires Good(tgt, opt, st, o) && o.Ok?
    ensures Good(tgt, t, st, o.(value := UnionArg(t, o.value)))
  {
    assert FieldName(o.value.typ) == name;
  }

  lemma {:induction false} ParseUnionGood(tgt: Target, strict: bool, t: Type, r: string, st: Tables)
    requires WellFormed(tgt) && WellFormedType(tgt, t) && VarsBelow(st) && |r| < MAX_LINE && r != [] && r[0] == '@'
    ensures Good(tgt, t, st, ParseUnion(tgt, strict, t, r, st))
    decreases |r|, 0
  {
    if !t.UnionT? {
      RecoverGood(tgt, strict, t, r, st);
    } else {
      assert WellFormedDesc(tgt, tgt.structs[t.key]);
      var r1 := Expect(r, '@');
      var id := if r1.Some? then Ident(r1.value) else None;
      if id.Some? {
        var opt := FindField(Desc(tgt, t.key).fields, id.value.0);
        if opt.None? {
          RecoverGood(tgt, strict, t, id.value.1, st);
        } else if id.value.1 != [] {
          if id.value.1[0] != '=' {
            DefaultGood(tgt, opt.value, id.value.1, st);
            UnionGood(tgt, t, opt.value, id.value.0, st, Default(tgt, opt.value, id.value.1, st));
          } else {
            var r2 := Expect(id.value.1, '=');
            if r2.Some? {
              ParseArgGood(tgt, strict, opt.value, r2.value, st);
              var o := ParseArg(tgt, strict, opt.value, r2.value, st);
              if o.Ok? {
                UnionGood(tgt, t, opt.value, id.value.0, st, o);
              }
            }
          }
        }
      }
    }
  }

  // ---- programs ----

  lemma ParseCallGood(tgt: Target, strict: bool, line: string, st: Tables)
    requires WellFormed(tgt) && VarsBelow(st) && |line| < MAX_LINE
    ensures var o := ParseCall(tgt, strict, line, st);
            o.Some? ==> CanonicalCalls(tgt, [o.value.0]) && VarsBelow(o.value.1)
  {
    var o := ParseCall(tgt, strict, line, st);
    if o.Some? {
      var id := Ident(line);
      var named := id.value.1[0] == '=';
      var id2 := if named then Ident(Expect(id.value.1, '=').value) else id;
      var meta := Lookup(tgt.syscalls, id2.value.0, 0).value;
      CallArgsGood(tgt, strict, meta, if named then Some(id.value.0) else None, id2.value.1, st);
    }
  }

  lemma FinishCallGood(tgt: Target, strict: bool, meta: nat, name: Option<string>, id: nat, st: Tables,
                       o: Outcome<seq<Arg>>)
    requires WellFormed(tgt) && meta < |tgt.syscalls| && id <= st.next
      && (tgt.syscalls[meta].ret.Some? ==> id < st.next)
    requires GoodSeq(tgt, tgt.syscalls[meta].args, st, o)
    ensures var c := FinishCall(tgt, strict, meta, name, id, o);
            c.Some? ==> CanonicalCalls(tgt, [c.value.0]) && VarsBelow(c.value.1)
  {
    var sys := tgt.syscalls[meta];
    assert WellFormedSyscall(tgt, sys);
    if o.Ok? {
      var n := |o.value|;
      DefaultArgsCanonical(tgt, sys.args[n..], o.st.next);
      CanonicalAppend(tgt, o.value, DefaultArgs(tgt, sys.args[n..], o.st.next).0, sys.args[..n], sys.args[n..]);
      assert sys.args[..n] + sys.args[n..] == sys.args;
      assert CanonicalCalls(tgt, []);
    }
  }

  lemma CallArgsGood(tgt: Target, strict: bool, meta: nat, name: Option<string>, r: string, st: Tables)
    requires WellFormed(tgt) && VarsBelow(st) && |r| < MAX_LINE && meta < |tgt.syscalls|
    ensures var o := ParseCallArgs(tgt, strict, meta, name, r, st);
            o.Some? ==> CanonicalCalls(tgt, [o.value.0]) && VarsBelow(o.value.1)
  {
    var sys := tgt.syscalls[meta];
    assert WellFormedSyscall(tgt, sys);
    var st1 := if sys.ret.Some? then st.(next := st.next + 1) else st;
    var r1 := Expect(r, '(');
    if r1.Some? {
      hide WellFormed, GoodSeq, FinishCall, ParseFields;
      ParseFieldsGood(tgt, strict, sys.args, ')', r1.value, st1);
      FinishCallGood(tgt, strict, meta, name, st.next, st1, ParseFields(tgt, strict, sys.args, ')', r1.value, st1));
    }
  }

  lemma {:induction false} ParseLinesGood(tgt: Target, strict: bool, lines: seq<string>, st: Tables)
    requires WellFormed(tgt) && VarsBelow(st) && LinesFit(lines)
    ensures var o := ParseLines(tgt, strict, lines, st);
            o.Some? ==> CanonicalCalls(tgt, o.value.0)
    decreases |lines|
  {
    if lines != [] {
      assert forall i :: 0 <= i < |lines[1..]| ==> lines[1..][i] == lines[i + 1];
      if lines[0] == [] || lines[0][0] == '#' {
        ParseLinesGood(tgt, strict, lines[1..], st);
      } else {
        ParseCallGood(tgt, strict, lines[0], st);
        var c := ParseCall(tgt, strict, lines[0], st);
        if c.Some? {
          ParseLinesGood(tgt, strict, lines[1..], c.value.1);
        }
      }
    }
  }

  lemma {:induction false} ScannedFit(text: string)
    requires ScanLines(text).Some?
    ensures LinesFit(ScanLines(text).value)
    decreases |text|
  {
    if text != [] {
      var n := LineEnd(text);
      if n < |text| {
        ScannedFit(text[n + 1..]);
      }
    }
  }

  /** Every program the parser accepts is canonical, whatever the text. */
  lemma DeserializeCanonical(tgt: Target, text: string, strict: bool)
    requires WellFormed(tgt)
    ensures var o := Deserialize(tgt, text, strict);
            o.Some? ==> Valid(tgt, o.value) && CanonicalCalls(tgt, o.value.calls)
  {
    if ScanLines(text).Some? {
      ScannedFit(text);
      ParseLinesGood(tgt, strict, ScanLines(text).value, Tables(map[], 0, map[]));
    }
  }

  /** The exact domain of the round trip: a valid program comes back as itself, up to the numbering
      of its results, if and only if it is canonical and no line of its text is too long. */
  lemma RoundTripIff(tgt: Target, p: Prog)
    requires WellFormed(tgt) && Valid(tgt, p)
    ensures Deserialize(tgt, Serialize(tgt, p), false) == Some(Renumbered(p))
            <==> CanonicalCalls(tgt, p.calls) && LinesFit(Lines(tgt, p))
  {
    if !LinesFit(Lines(tgt, p)) {
      LongLineFails(tgt, p);
    } else if CanonicalCalls(tgt, p.calls) {
      RoundTrip(tgt, p);
    } else {
      DeserializeCanonical(tgt, Serialize(tgt, p), false);
      ValidateCallsAdds(tgt, p.calls, {});
      RenameCallsKeepsCanonical(tgt, IdsCalls(p.calls), p.calls);
    }
  }

  /** Printing and parsing once more changes nothing: the text form of a parsed program is stable. */
  lemma ParsedIsStable(tgt: Target, text: string)
    requires WellFormed(tgt)
    ensures var o := Deserialize(tgt, text, false);
            o.Some? && LinesFit(Lines(tgt, o.value)) ==>
              Deserialize(tgt, Serialize(tgt, o.value), false) == Some(Renumbered(o.value))
  {
    DeserializeCanonical(tgt, text, false);
    var o := Deserialize(tgt, text, false);
    if o.Some? && LinesFit(Lines(tgt, o.value)) {
      RoundTrip(tgt, o.value);
    }
  }

  /** A divisor left behind on an argument that refers to nothing is valid but not printed. Removing a
      reference during minimisation leaves one behind. */
  lemma LeftoverDivisorIsLost(tgt: Target, used: set<nat>, t: Type, id: nat, op: u64, vs: Vars)
    requires t.ResourceT? && t.c.dir != DirOut && op != 0
    ensures var a := ResultArg(t, id, None, op, 0, t.default);
      && ValidateArg(tgt, a, t, {}).Some? && !Canonical(tgt, a, t)
      && PrintArg(tgt, used, a, vs) == PrintArg(tgt, used, a.(opDiv := 0), vs)
  {
    hide Hex;
  }

  /** Does some argument of a tree refer to itself? */
  predicate RefersToItself(a: Arg)
    decreases a, 0
  {
    match a
    case ResultArg(_, id, ref, _, _, _) => ref == Some(id)
    case PointerArg(_, _, _, res) => res.Some? && RefersToItself(res.value)
    case GroupArg(_, inner) => SomeRefersToItself(inner)
    case UnionArg(_, option) => RefersToItself(option)
    case _ => false
  }

  predicate SomeRefersToItself(args: seq<Arg>)
    decreases args
  {
    args != [] && (RefersToItself(args[0]) || SomeRefersToItself(args[1..]))
  }

  lemma {:induction false} CanonicalRefersElsewhere(tgt: Target, a: Arg, t: Type)
    requires Canonical(tgt, a, t)
    ensures !RefersToItself(a)
    decreases a, 0
  {
    match a
    case PointerArg(typ, _, _, res) =>
      if res.Some? {
        CanonicalRefersElsewhere(tgt, res.value, typ.elem);
      }
    case GroupArg(typ, inner) =>
      CanonicalAllElsewhere(tgt, inner, if typ.StructT? then Desc(tgt, typ.key).fields else Repeat(typ.elem, |inner|));
    case UnionArg(typ, option) =>
      CanonicalRefersElsewhere(tgt, option, FindField(Desc(tgt, typ.key).fields, FieldName(option.typ)).value);
    case _ =>
  }

  lemma {:induction false} CanonicalAllElsewhere(tgt: Target, args: seq<Arg>, types: seq<Type>)
    requires CanonicalSeq(tgt, args, types)
    ensures !SomeRefersToItself(args)
    decreases args
  {
    if args != [] {
      CanonicalRefersElsewhere(tgt, args[0], types[0]);
      CanonicalAllElsewhere(tgt, args[1..], types[1..]);
    }
  }

  lemma {:induction false} CanonicalCallsElsewhere(tgt: Target, calls: seq<Call>)
    requires CanonicalCalls(tgt, calls)
    ensures forall i :: 0 <= i < |calls| ==> !SomeRefersToItself(calls[i].args)
  {
    if calls != [] {
      CanonicalAllElsewhere(tgt, calls[0].args, tgt.syscalls[calls[0].meta].args);
      CanonicalCallsElsewhere(tgt, calls[1..]);
    }
  }

  /** An argument that refers to itself is valid, but no text at all is read as a program with one. */
  lemma SelfReferenceIsLost(tgt: Target, t: Type, id: nat, seen: set<nat>, text: string, strict: bool)
    requires WellFormed(tgt) && t.ResourceT? && id !in seen
    ensures ValidateArg(tgt, ResultArg(t, id, Some(id), 0, 0, 0), t, seen).Some?
    ensures var o := Deserialize(tgt, text, strict);
      o.Some? ==> forall i :: 0 <= i < |o.value.calls| ==> !SomeRefersToItself(o.value.calls[i].args)
  {
    DeserializeCanonical(tgt, text, strict);
    hide Deserialize;
    var o := Deserialize(tgt, text, strict);
    if o.Some? {
      CanonicalCallsElsewhere(tgt, o.value.calls);
    }
  }
}
