/** The mail panel's store (flask_debugtoolbar/panels/mail.py): every mail
    flask_mail dispatches is kept under the next index, and the panel's views
    remove one mail or all of them. */
module Mail {
  import opened Text
  import opened Results

  /** The module globals `mails` and `last_index`. */
  datatype MailStore<M> = MailStore(mails: map<nat, M>, lastIndex: nat)

  /** Every stored index was handed out before `last_index`. */
  ghost predicate Valid<M>(s: MailStore<M>) {
    forall k :: k in s.mails ==> k < s.lastIndex
  }

  function Initial<M>(): (s: MailStore<M>)
    ensures Valid(s) && s.mails == map[] && s.lastIndex == 0
  {
    MailStore(map[], 0)
  }

  /** `_add_mail`: stored at `last_index`, which then moves on. */
  function AddMail<M>(s: MailStore<M>, message: M): (r: MailStore<M>)
    requires Valid(s)
    ensures Valid(r)
    ensures s.lastIndex !in s.mails
    ensures r.mails == s.mails[s.lastIndex := message] && r.lastIndex == s.lastIndex + 1
  {
    MailStore(s.mails[s.lastIndex := message], s.lastIndex + 1)
  }

  /** `remove_mail`: `del mails[key]`, a `KeyError` for an unknown key. */
  function RemoveMail<M>(s: MailStore<M>, key: nat): (r: Result<MailStore<M>>)
    ensures key !in s.mails <==> r == Err(KeyError)
    ensures r.Ok? ==> r.value.mails == s.mails - {key} && r.value.lastIndex == s.lastIndex
  {
    if key in s.mails then Ok(s.(mails := s.mails - {key})) else Err(KeyError)
  }

  /** `remove_all_mails`: the mails go, the index does not restart. */
  function RemoveAllMails<M>(s: MailStore<M>): (r: MailStore<M>)
    ensures r.mails == map[] && r.lastIndex == s.lastIndex
  {
    MailStore(map[], s.lastIndex)
  }

  /** The store operations, as the signal and the two views perform them. */
  datatype MailOp<M> = Add(message: M) | Remove(key: nat) | RemoveAll

  /** One operation; a failed removal leaves the store as it was. */
  function Step<M>(s: MailStore<M>, op: MailOp<M>): (r: MailStore<M>)
    requires Valid(s)
    ensures Valid(r) && r.lastIndex >= s.lastIndex
  {
    match op
    case Add(m) => AddMail(s, m)
    case Remove(k) => (match RemoveMail(s, k) case Ok(t) => t case Err(_) => s)
    case RemoveAll => RemoveAllMails(s)
  }

  function Run<M>(s: MailStore<M>, ops: seq<MailOp<M>>): (r: MailStore<M>)
    requires Valid(s)
    ensures Valid(r)
    decreases |ops|
  {
    if |ops| == 0 then s else Run(Step(s, ops[0]), ops[1..])
  }

  /** `last_index` never goes back, whatever happens in between. */
  lemma {:induction false} RunNeverRewinds<M>(s: MailStore<M>, ops: seq<MailOp<M>>)
    requires Valid(s)
    ensures Run(s, ops).lastIndex >= s.lastIndex
    decreases |ops|
  {
    if |ops| > 0 {
      RunNeverRewinds(Step(s, ops[0]), ops[1..]);
    }
  }

  /** An index is never reused: a mail added after any history, even one
      that removed every mail, gets an index no earlier mail had. */
  lemma IndexNeverReused<M>(s: MailStore<M>, first: M, ops: seq<MailOp<M>>, later: M)
    requires Valid(s)
    ensures var s1 := AddMail(s, first);
            var s2 := Run(s1, ops);
            s2.lastIndex > s.lastIndex && s2.lastIndex !in s2.mails &&
            AddMail(s2, later).mails[s2.lastIndex] == later
  {
    RunNeverRewinds(AddMail(s, first), ops);
  }

  /** `nav_subtitle`: "1 Mail" for one mail, "N Mails" otherwise. */
  function NavSubtitle<M>(s: MailStore<M>): (r: string)
    ensures |s.mails| == 1 ==> r == "1 Mail"
    ensures |s.mails| != 1 ==> r == NatToString(|s.mails|) + " Mails"
  {
    if |s.mails| == 1 then "1 Mail" else NatToString(|s.mails|) + " Mails"
  }

  /** An emptied store reads "0 Mails". */
  lemma EmptiedStoreSubtitle<M>(s: MailStore<M>)
    ensures NavSubtitle(RemoveAllMails(s)) == "0 Mails"
  {
    assert |RemoveAllMails(s).mails| == 0;
    assert NatToString(0) == "0";
  }
}
