/** Two short runs, as inputs for the statements that something can happen: creating the namespace
    "a", and putting one byte under its key "k". */
module HubSamples {
  import opened Base
  import opened Text
  import opened Meta
  import opened Validate
  import opened StoreEntry
  import opened StoreMemory
  import opened Quota
  import opened Access
  import opened HubModel
  import opened HubInvariants
  import Gray

  function CreateA(): Op {
    OpCreateNS(NSSpec(Lit("a"), Lit("o"), 0, 0, []), 0, 0)
  }

  function Unsigned(gray: Option<GrayRule>): PutOptions {
    PutOptions([], [], [], [], [], gray, 0)
  }

  function OneKeyRun(): seq<Op> {
    [CreateA(), OpPut(Lit("a"), Lit("k"), [1], Unsigned(None), [], 0, 0)]
  }

  lemma {:induction false} NamesAreValid()
    ensures IsNSID(Lit("a")) && IsOwner(Lit("o")) && IsKey(Lit("k"))
  {
    assert Lit("a") == [97] && Lit("o") == [111] && Lit("k") == [107];
    assert Split([107], Validate.SLASH) == [[107]] by {
      SplitFree([107], Validate.SLASH);
    }
    AsciiIsUtf8(Lit("o"));
  }

  /** Open, with the namespace "a" and nothing in it. */
  predicate HasOnlyA(s: HubState) {
    && !s.closed && s.entries == map[] && s.use == map[]
    && s.items == map[Lit("a") := Namespace(Lit("a"), Lit("o"), 0, DEFAULT_MAX_KEYS, DEFAULT_MAX_BYTES)]
  }

  lemma {:induction false} CreatingA(cfg: Config, auditCap: int)
    ensures HasOnlyA(Run(cfg, New(auditCap), [CreateA()]))
  {
    hide IsNSID, IsOwner;
    NamesAreValid();
    var s := New(auditCap);
    assert [CreateA()][..0] == [] && Run(cfg, s, []) == s;
    assert Run(cfg, s, [CreateA()]) == Step(cfg, s, CreateA());
  }

  /** The first version of "k", released as the normal form of its rule says. */
  lemma {:induction false} PuttingK(cfg: Config, s: HubState, gray: Option<GrayRule>, order: seq<Bytes>)
    requires !cfg.requireSign && HasOnlyA(s)
    requires Gray.Visits(order, gray) && Gray.NormalForm(gray, order).Ok?
    ensures var n := Gray.NormalForm(gray, order).value;
            var (t, r) := Put(cfg, s, Lit("a"), Lit("k"), [1], Unsigned(gray), order, 0, 0);
            && r == Ok(1) && !t.closed && t.items == s.items && t.use == map[Lit("a") := Usage(1, 1)]
            && t.entries == map[NsKey(Lit("a"), Lit("k")) :=
                 Entry(Lit("a"), Lit("k"), [VersionMeta(1, [1], [], [], [], 0, n)], 1, if Full(n) then 1 else 0)]
  {
    hide IsKey, NsKey, Gray.NormalForm, Gray.IsIteration;
    NamesAreValid();
    assert Lit("a") == [97];
    var v := Admission(cfg, s, Lit("a"), Lit("k"), [1], Unsigned(gray), order, 0);
    assert v.Admit? && v.newKey && v.v == VersionMeta(1, [1], [], [], [], 0, Gray.NormalForm(gray, order).value);
  }

  lemma {:induction false} OneKeyCounted(cfg: Config, auditCap: int)
    requires !cfg.requireSign
    ensures var s := Run(cfg, New(auditCap), OneKeyRun());
            !s.closed && s.use == map[Lit("a") := Usage(1, 1)] && s.entries.Keys == {NsKey(Lit("a"), Lit("k"))}
  {
    hide Put, Lit, HasOnlyA, NsKey;
    var ops := OneKeyRun();
    assert ops[..1] == [CreateA()];
    CreatingA(cfg, auditCap);
    PuttingK(cfg, Run(cfg, New(auditCap), [CreateA()]), None, []);
  }

  /** Put releases a version to everyone that was meant for the id " " alone. */
  lemma {:induction false} PutCanReleaseToAll(cfg: Config, auditCap: int, client: ClientContext)
    requires !cfg.requireSign && client.id != Lit(" ")
    ensures var rule := GrayRule(0, [Lit(" ")], map[]);
            var s := Run(cfg, New(auditCap), [CreateA()]);
            var (t, r) := Put(cfg, s, Lit("a"), Lit("k"), [1], Unsigned(Some(rule)), [], 0, 0);
            var got := Get(cfg, t, Lit("a"), Lit("k"), client);
            && r == Ok(1) && !Gray.Eval(cfg.bucket, Some(rule), client)
            && NsKey(Lit("a"), Lit("k")) in t.entries && t.entries[NsKey(Lit("a"), Lit("k"))].stable == 1
            && got.Ok? && got.value.rev == 1 && got.value.hit
  {
    hide Put, NsKey, Gray.NormalForm;
    CreatingA(cfg, auditCap);
    Gray.NormalFormCanReleaseToAll(cfg.bucket, client);
    PuttingK(cfg, Run(cfg, New(auditCap), [CreateA()]), Some(GrayRule(0, [Lit(" ")], map[])), []);
  }
}
