/** The options documented for an enum-typed member or parameter (`GetOptions`). */
module EnumOptions {
  import opened Wrappers
  import opened Text
  import opened Sorting
  import opened Metadata
  import opened Documents
  import opened Settings
  import Linq

  /** The option built for one field before the override runs: convention text, and the name or literal as value. */
  function ProvisionalOption(svc: Service, f: EnumField): EnumOption
  {
    var description := svc.conventions.options(f);
    EnumOption(
      description.name,
      description.comments,
      if svc.configuration.enumValue == AsString then f.name else f.rawValue)
  }

  /** The option emitted for one field: the override sees the provisional option last. */
  function OptionOf(svc: Service, f: EnumField): EnumOption
  {
    svc.configuration.overrides.options(f, ProvisionalOption(svc, f))
  }

  /** The fields of `t` that are not hidden, in declaration order. */
  function VisibleFields(svc: Service, t: TypeId): (r: seq<EnumField>)
    ensures forall f :: f in r <==> f in svc.reflection.EnumFieldsOf(t) && !f.hidden
  {
    Linq.Filter(svc.reflection.EnumFieldsOf(t), (f: EnumField) => !f.hidden)
  }

  function OptionsOf(svc: Service, fs: seq<EnumField>): seq<EnumOption>
  {
    seq(|fs|, i requires 0 <= i < |fs| => OptionOf(svc, fs[i]))
  }

  /** `Name ?? Value`: what options are ordered by. */
  function SortKey(o: EnumOption): string
  {
    if o.name.Some? then o.name.value else o.value
  }

  predicate OptionLe(a: EnumOption, b: EnumOption)
  {
    StrLe(SortKey(a), SortKey(b))
  }

  lemma OptionLeTotalPreorder()
    ensures TotalPreorder(OptionLe)
  {
    StrLeTotalOrder();
  }

  /**
   * `GetOptions`: for an enum (or a nullable enum) one option per
   * visible field, ordered by `Name ?? Value`; nothing for other types.
   */
  function GetOptions(svc: Service, t: TypeId): (r: seq<EnumOption>)
    ensures !svc.reflection.HasEnumOptions(t) ==> r == []
    ensures svc.reflection.HasEnumOptions(t) ==> multiset(r) == multiset(OptionsOf(svc, VisibleFields(svc, t)))
    ensures SortedBy(r, OptionLe)
  {
    if svc.reflection.HasEnumOptions(t) then
      OptionLeTotalPreorder();
      SortBySorted(OptionsOf(svc, VisibleFields(svc, t)), OptionLe);
      SortBy(OptionsOf(svc, VisibleFields(svc, t)), OptionLe)
    else []
  }

  /** Each option of an enum is the option of one of its visible fields. */
  lemma OptionFromField(svc: Service, t: TypeId, o: EnumOption) returns (f: EnumField)
    requires svc.reflection.HasEnumOptions(t) && o in GetOptions(svc, t)
    ensures f in svc.reflection.EnumFieldsOf(t) && !f.hidden && o == OptionOf(svc, f)
  {
    var fs := VisibleFields(svc, t);
    var os := OptionsOf(svc, fs);
    assert o in multiset(os);
    var i :| 0 <= i < |os| && os[i] == o;
    f := fs[i];
    assert f in fs;
  }

  /** Each visible field of an enum has its option. */
  lemma FieldHasOption(svc: Service, t: TypeId, f: EnumField)
    requires svc.reflection.HasEnumOptions(t) && f in svc.reflection.EnumFieldsOf(t) && !f.hidden
    ensures OptionOf(svc, f) in GetOptions(svc, t)
  {
    var fs := VisibleFields(svc, t);
    var os := OptionsOf(svc, fs);
    var i :| 0 <= i < |fs| && fs[i] == f;
    assert os[i] in multiset(GetOptions(svc, t));
  }

  /**
   * Without an option override, each option of an enum carries the
   * declared name (AsString) or the literal (AsNumber) of a field that
   * is not hidden, and every such field has its option.
   */
  lemma OptionValuesFollowEnumValue(svc: Service, t: TypeId)
    requires forall f, o :: svc.configuration.overrides.options(f, o) == o
    requires svc.reflection.HasEnumOptions(t)
    ensures forall o <- GetOptions(svc, t) :: exists f <- svc.reflection.EnumFieldsOf(t) ::
      !f.hidden && o.value == (if svc.configuration.enumValue == AsString then f.name else f.rawValue)
    ensures forall f <- svc.reflection.EnumFieldsOf(t) :: !f.hidden ==> ProvisionalOption(svc, f) in GetOptions(svc, t)
  {
    forall o <- GetOptions(svc, t)
      ensures exists f <- svc.reflection.EnumFieldsOf(t) ::
        !f.hidden && o.value == (if svc.configuration.enumValue == AsString then f.name else f.rawValue)
    {
      var f := OptionFromField(svc, t, o);
    }
    forall f <- svc.reflection.EnumFieldsOf(t) | !f.hidden ensures ProvisionalOption(svc, f) in GetOptions(svc, t) {
      FieldHasOption(svc, t, f);
    }
  }
}
