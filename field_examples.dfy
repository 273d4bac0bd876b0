/** Worked examples of the extraction rules, each proved from the
    declarative description of its pattern. */
module FieldExamples {
  import opened Wrappers
  import opened JsText
  import opened FieldRules

  lemma CostWholeNumber(t: string)
    requires t == "1500,00"
    ensures Cost(t) == t
  {
    assert IsCostAt(t, 0, |t|);
    MatchAtStart(t, CostPattern, |t|);
    assert t[..|t|] == t;
  }

  /** Only two digits follow the comma. */
  lemma CostTwoDecimals()
    ensures Cost("12,345") == "12,34"
  {
    var t := "12,345";
    assert IsCostAt(t, 0, 5);
    MatchAtStart(t, CostPattern, 5);
  }

  lemma FioWholeName(t: string)
    requires t == "Иванов Иван Иванович"
    ensures Fio(t) == t
  {
    WholeNameSplit(t);
    MatchAtStart(t, FioPattern, |t|);
    assert t[..|t|] == t;
  }

  lemma WholeNameSplit(t: string)
    requires t == "Иванов Иван Иванович"
    ensures IsFioAt(t, 0, 20)
  {
    assert IsName(t, 0, 6) && IsName(t, 7, 11) && IsName(t, 12, 20);
    assert IsWhiteSpace(t[6]) && IsWhiteSpace(t[11]);
    assert IsFioSplit(t, 0, 6, 11, 20);
  }

  /** In "г. Москва ул. Ленина 10 стоимость 1500,00" the address is the
      city alone: the street never joins it. */
  lemma ContractLineAddress(t: string)
    requires t == "г. Москва ул. Ленина 10 стоимость 1500,00"
    ensures Address(t) == "г. Москва"
  {
    CityIsAddressSplit(t);
    MatchAtStart(t, AddressPattern, 9);
    assert t[..9] == "г. Москва";
  }

  lemma CityIsAddressSplit(t: string)
    requires t == "г. Москва ул. Ленина 10 стоимость 1500,00"
    ensures IsAddressAt(t, 0, 9)
  {
    CityLetters(t);
    assert IsWhiteSpace(t[2]) && !IsCyrillicLetter(t[9]);
    assert IsAddressSplit(t, 0, 3, 9);
  }

  lemma CityLetters(t: string)
    requires t == "г. Москва ул. Ленина 10 стоимость 1500,00"
    ensures forall i :: 3 <= i < 9 ==> IsCyrillicLetter(t[i])
  {
    assert IsUpperCyrillic(t[3]);
    assert IsLowerCyrillic(t[4]) && IsLowerCyrillic(t[5]) && IsLowerCyrillic(t[6]);
    assert IsLowerCyrillic(t[7]) && IsLowerCyrillic(t[8]);
  }

  /** The house number "10" of the same line is not a cost; the amount is. */
  lemma ContractLineCost(t: string)
    requires t == "г. Москва ул. Ленина 10 стоимость 1500,00"
    ensures Cost(t) == "1500,00"
  {
    assert IsMatchAt(t, CostPattern, 34, 41);
    forall s: nat, e: nat | s < 34 ensures !IsMatchAt(t, CostPattern, s, e) {
      NoCostBefore(t, s, e);
    }
    FirstMatchIsSpan(t, CostPattern, 34, 41);
    assert t[34..41] == "1500,00";
  }

  lemma NoCostBefore(t: string, s: nat, e: nat)
    requires t == "г. Москва ул. Ленина 10 стоимость 1500,00"
    requires s < 34
    ensures !IsCostAt(t, s, e)
  {
    if s + 4 <= e <= |t| && t[e - 3] == ',' {
      assert e - 3 == 38;
      if s <= 23 {
        assert !IsDigit(t[23]);
      } else {
        assert !IsDigit(t[s]);
      }
    }
  }

  /** "адрес" flanked by ASCII word characters: the property is what lies
      between it and the amount, trimmed. */
  lemma PropertyBetweenMarkers(t: string)
    requires t == "xадресy 1500,00"
    ensures Property(t) == "y"
  {
    PropertyFirstAtSix(t);
    PropertyText(t);
    TrimsToY("y ");
  }

  lemma PropertyFirstAtSix(t: string)
    requires t == "xадресy 1500,00"
    ensures Span(t, PropertyPattern) == Some((6, 8))
  {
    PropertySpanOfExample(t);
    forall s: nat, q: nat | s < 6 ensures !IsMatchAt(t, PropertyPattern, s, q) {
      NoPropertyBefore(t, s, q);
    }
    FirstMatchIsSpan(t, PropertyPattern, 6, 8);
  }

  lemma PropertyText(t: string)
    requires t == "xадресy 1500,00" && Span(t, PropertyPattern) == Some((6, 8))
    ensures Matched(t, PropertyPattern) == "y "
  {
    assert t[6..8] == "y ";
  }

  lemma TrimsToY(u: string)
    requires u == "y "
    ensures Trim(u) == "y"
  {
    assert !IsWhiteSpace(u[0]) && IsWhiteSpace(u[1]);
    assert TrimStart(u) == u;
    var y := u[..1];
    assert y == "y" && !IsWhiteSpace(y[0]);
    assert TrimEnd(y) == y;
    assert TrimEnd(u) == TrimEnd(y);
  }

  lemma PropertySpanOfExample(t: string)
    requires t == "xадресy 1500,00"
    ensures IsMatchAt(t, PropertyPattern, 6, 8)
  {
    assert MatchesIgnoringCase(t[1..6], AddressWord);
    assert IsMarkerAt(t, 1, AddressWord);
    assert IsCostAt(t, 8, 15);
    assert IsStopAt(t, 8);
    forall i: nat | 6 <= i < 8 ensures !IsStopAt(t, i) {
      assert !IsMarkerAt(t, i, CostWord);
      forall e: nat ensures !IsCostAt(t, i, e) {
        assert !IsDigit(t[i]);
      }
    }
    assert IsPropertyAt(t, 6, 8);
  }

  lemma NoPropertyBefore(t: string, s: nat, q: nat)
    requires t == "xадресy 1500,00"
    requires s < 6
    ensures !IsPropertyAt(t, s, q)
  {
    if 5 <= s {
      assert CyrillicUpper(t[0]) != CyrillicUpper(AddressWord[0]);
      assert !MatchesIgnoringCase(t[0..5], AddressWord);
    }
  }
}
