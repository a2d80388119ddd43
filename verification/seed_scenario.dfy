/** An illustrative session of the registries: two accounts, a
    rejected third one, a post, likes and the feed. Strings are shortened;
    only their relevant features (an '@' in the email, six password
    characters) matter. */
module Scenario {
  import opened Wrappers
  import opened Errors
  import opened Accounts
  import opened Posts
  import AccountRegistry
  import PostRegistry
  import NewsFeed

  function Draft(name: string, username: string, email: string): Account {
    Account(None, name, username, email, "secret", 0, [], [])
  }

  function Carlos(): Account { Draft("Carlos", "carlos", "c@m") }
  function Fernanda(): Account { Draft("Fernanda", "fernanda", "f@m") }

  /** Two fresh accounts get ids 1 and 2; a third draft reusing Carlos's
      email is refused, yet consumes id 3. */
  lemma Registrations()
    ensures var r1 := AccountRegistry.Register(AccountRegistry.Empty(), Carlos());
            var r2 := AccountRegistry.Register(r1.users, Fernanda());
            var r3 := AccountRegistry.Register(r2.users, Draft("Copy", "copy", "c@m"));
            && r1.outcome == Success(1)
            && r2.outcome == Success(2)
            && r3.outcome == Failure(UsuarioException(EmailInUse))
            && r3.users.nextId == 4
            && |r3.users.accounts| == 2
  {
    var r1 := AccountRegistry.Register(AccountRegistry.Empty(), Carlos());
    assert r1.users.accounts == [Carlos().(id := Some(1))];
    var r2 := AccountRegistry.Register(r1.users, Fernanda());
    assert !AccountRegistry.UsernameTaken(r1.users, "fernanda");
    assert !AccountRegistry.EmailTaken(r1.users, "f@m");
    assert r2.users.accounts == [Carlos().(id := Some(1)), Fernanda().(id := Some(2))];
    assert !AccountRegistry.UsernameTaken(r2.users, "copy");
    assert AccountRegistry.EmailTaken(r2.users, "c@m") by {
      assert r2.users.accounts[0].email == "c@m";
    }
  }

  /** The two registered accounts, as stored. */
  function TwoUsers(): AccountRegistry.Users {
    AccountRegistry.Users([Carlos().(id := Some(1)), Fernanda().(id := Some(2))], 3)
  }

  function CarlosPost(): Post {
    Post(None, 1, "dia", 5, [], [])
  }

  /** Fernanda likes Carlos's post and her second like is refused; an
      unknown account or an unknown post is refused too. */
  lemma Likes()
    ensures var s := PostRegistry.Create(PostRegistry.Empty(), Some(CarlosPost()));
            && s.Success?
            && var liked := PostRegistry.Like(s.value, TwoUsers(), 1, 2);
               && liked.Success?
               && liked.value.posts[0].likes == [2]
               && PostRegistry.Like(liked.value, TwoUsers(), 1, 2) == Failure(PostException(AlreadyLiked))
               && PostRegistry.Like(s.value, TwoUsers(), 1, 7) == Failure(UsuarioException(AccountNotFound))
               && PostRegistry.Like(s.value, TwoUsers(), 9, 2) == Failure(PostException(PostNotFound))
  {
    var s := PostRegistry.Create(PostRegistry.Empty(), Some(CarlosPost())).value;
    assert s.posts == [CarlosPost().(id := Some(1))];
    assert PostRegistry.IndexOfPost(s, 1) == Some(0);
    assert AccountRegistry.HasAccount(TwoUsers(), 2) by {
      assert TwoUsers().accounts[1].id == Some(2);
    }
    assert !AccountRegistry.HasAccount(TwoUsers(), 7);
    var liked := PostRegistry.Like(s, TwoUsers(), 1, 2).value;
    assert PostRegistry.IndexOfPost(liked, 1) == Some(0);
  }

  /** Fernanda befriends Carlos through the registry; Carlos's post then
      reaches Fernanda's feed. */
  lemma FeedOfFriend()
    ensures var u := AccountRegistry.AddFriendship(TwoUsers(), 2, 1);
            && u.Success?
            && |u.value.accounts| == 2
            && var p := CarlosPost().(id := Some(1));
               NewsFeed.Feed(u.value.accounts[1], [p]) == [p]
  {
    var u0 := TwoUsers();
    assert AccountRegistry.HasAccount(u0, 1) by {
      assert u0.accounts[0].id == Some(1);
    }
    assert AccountRegistry.HasAccount(u0, 2) by {
      assert u0.accounts[1].id == Some(2);
    }
    assert AccountRegistry.IndexOf(u0, 2) == Some(1);
    var viewer := AccountRegistry.AddFriendship(u0, 2, 1).value.accounts[1];
    assert viewer.friends == [1];
    var p := CarlosPost().(id := Some(1));
    var feed := NewsFeed.Feed(viewer, [p]);
    assert p in feed;
    assert |feed| == 1 by {
      assert |multiset(feed)| <= |multiset([p])|;
    }
  }

  /** It does not reach the feed of an account without friends. */
  lemma FeedOfStranger()
    ensures var p := CarlosPost().(id := Some(1));
            NewsFeed.Feed(Fernanda().(id := Some(2)), [p]) == []
  {
    var p := CarlosPost().(id := Some(1));
    var feed := NewsFeed.Feed(Fernanda().(id := Some(2)), [p]);
    assert forall q :: q !in feed;
  }
}
